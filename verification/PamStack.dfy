// What a PAM service file means, and what the transformations of PamText do to that meaning.
// The reading of a line and the combination of return codes follow pam.conf(5): the four
// keyword controls, bracketed actions, numeric jumps, and the "must fail" verdict of a stack that
// never reached a decision.
module PamStack {
  import opened Text
  import opened PamText

  datatype Kind = Auth | Account | Password | Session | Unknown

  /** The return code of one module call. */
  datatype Outcome = Success | NewToken | Ignored | Failure(code: nat)

  const MUST_FAIL := Failure(6)

  /** The code with which pam_irauth refuses. */
  const REFUSED := Failure(7)

  datatype Action = Ok | Done | Bad | Die | Ignore | Reset | Jump(skip: nat)

  /** The reading of every control that is not one of the four keywords. */
  type Brackets = (string, Outcome) -> Action

  // ---------------------------------------------------------------- reading a line

  predicate Blank(c: char) {
    c == ' ' || c == '\t'
  }

  function SkipBlanks(s: string): (r: string)
    ensures |r| <= |s| && (r == "" || !Blank(r[0]))
  {
    if s != "" && Blank(s[0]) then SkipBlanks(s[1..]) else s
  }

  function WordLen(s: string): (n: nat)
    ensures n <= |s|
  {
    if s == "" || Blank(s[0]) then 0 else 1 + WordLen(s[1..])
  }

  /** A bracketed control runs to its closing bracket. */
  function ControlLen(s: string): (n: nat)
    ensures n <= |s|
  {
    var i := Find(s, ']');
    if s != "" && s[0] == '[' && i < |s| then i + 1 else WordLen(s)
  }

  function KindOf(word: string): Kind {
    var w := Lower(word);
    if w == "auth" || w == "-auth" then Auth
    else if w == "account" || w == "-account" then Account
    else if w == "password" || w == "-password" then Password
    else if w == "session" || w == "-session" then Session
    else Unknown
  }

  datatype Rule = Rule(kind: Kind, control: string, rest: string)

  /** A `#` starts a comment. */
  function Uncommented(line: string): string {
    SkipBlanks(line[..Find(line, '#')])
  }

  function ReadRule(s: string): Rule {
    var afterKind := SkipBlanks(s[WordLen(s)..]);
    var n := ControlLen(afterKind);
    Rule(KindOf(s[..WordLen(s)]), Lower(afterKind[..n]), SkipBlanks(afterKind[n..]))
  }

  /** What is left of a line without its comment is a rule, unless it is blank. */
  function Parse(line: string): Option<Rule> {
    var s := Uncommented(line);
    if s == "" then None else Some(ReadRule(s))
  }

  // ---------------------------------------------------------------- running a stack

  /** One line of a service file together with what its module returns in this run. */
  datatype Step = Step(line: string, outcome: Outcome)

  function StepLines(ss: seq<Step>): seq<string> {
    seq(|ss|, i requires 0 <= i < |ss| => ss[i].line)
  }

  /** One module call of a stack. */
  datatype Call = Call(control: string, outcome: Outcome)

  /** The calls of one kind, in file order. */
  function Stack(ss: seq<Step>, kind: Kind): seq<Call> {
    if ss == [] then [] else StackHead(ss[0], kind) + Stack(ss[1..], kind)
  }

  function StackHead(s: Step, kind: Kind): seq<Call> {
    match Parse(s.line)
    case Some(r) => if r.kind == kind then [Call(r.control, s.outcome)] else []
    case None => []
  }

  function ActionOf(c: Call, brackets: Brackets): Action {
    var good := c.outcome.Success? || c.outcome.NewToken?;
    if c.control == "required" then
      if good then Ok else if c.outcome.Ignored? then Ignore else Bad
    else if c.control == "requisite" then
      if good then Ok else if c.outcome.Ignored? then Ignore else Die
    else if c.control == "sufficient" then
      if good then Done else Ignore
    else if c.control == "optional" then
      if good then Ok else Ignore
    else brackets(c.control, c.outcome)
  }

  datatype Impression = Undecided | Positive | Negative

  /** The verdict so far. */
  datatype Progress = Progress(impression: Impression, status: Outcome)

  const START := Progress(Undecided, MUST_FAIL)

  function Verdict(p: Progress): Outcome {
    if p.status.Success? && !p.impression.Positive? then MUST_FAIL else p.status
  }

  function Accept(p: Progress, o: Outcome): Progress {
    if (p.impression.Undecided? || (p.impression.Positive? && p.status.Success?)) && !o.Ignored?
    then Progress(Positive, o) else p
  }

  function Reject(p: Progress, o: Outcome): Progress {
    if p.impression.Negative? then p
    else Progress(Negative, if o.Ignored? then MUST_FAIL else o)
  }

  /** Runs the calls of a stack from a given progress and returns its result. */
  function Eval(cs: seq<Call>, p: Progress, brackets: Brackets): Outcome
    decreases |cs|
  {
    if cs == [] then Verdict(p)
    else
      var o := cs[0].outcome;
      match ActionOf(cs[0], brackets)
      case Ok => Eval(cs[1..], Accept(p, o), brackets)
      case Done =>
        var q := Accept(p, o);
        if q.impression.Positive? then Verdict(q) else Eval(cs[1..], q, brackets)
      case Bad => Eval(cs[1..], Reject(p, o), brackets)
      case Die => Verdict(Reject(p, o))
      case Ignore => Eval(cs[1..], p, brackets)
      case Reset => Eval(cs[1..], START, brackets)
      case Jump(n) => if 1 + n <= |cs| then Eval(cs[1 + n..], p, brackets) else MUST_FAIL
  }

  /** The result of one kind of a service file. */
  function Run(ss: seq<Step>, kind: Kind, brackets: Brackets): Outcome {
    Eval(Stack(ss, kind), START, brackets)
  }

  // ---------------------------------------------------------------- the rewriter on runs

  /** What each rewritten line returns: the inserted line answers `o`, the comments nothing. */
  function RewriteSteps(ss: seq<Step>, o: Outcome, inserted: bool): seq<Step> {
    if ss == [] then []
    else if Direct(ss[0].line) then RoutedSteps(ss[0], o, inserted) + RewriteSteps(ss[1..], o, true)
    else [ss[0]] + RewriteSteps(ss[1..], o, inserted)
  }

  function RoutedSteps(s: Step, o: Outcome, inserted: bool): seq<Step> {
    [Step(MARKER, Ignored), Step("# " + s.line, Ignored)]
    + if inserted then [] else [Step(IRAUTH_LINE, o)]
  }

  function WithoutDirect(ss: seq<Step>): seq<Step> {
    if ss == [] then []
    else (if Direct(ss[0].line) then [] else [ss[0]]) + WithoutDirect(ss[1..])
  }

  lemma StepLinesConcat(a: seq<Step>, b: seq<Step>)
    ensures StepLines(a + b) == StepLines(a) + StepLines(b)
  {
  }

  lemma RoutedStepsLines(s: Step, o: Outcome, inserted: bool)
    ensures StepLines(RoutedSteps(s, o, inserted)) == Routed(s.line, inserted)
  {
    hide MARKER, IRAUTH_LINE;
  }

  /** RewriteSteps runs the very lines the rewriter writes. */
  lemma {:induction false} RewriteStepsLines(ss: seq<Step>, o: Outcome, inserted: bool)
    ensures StepLines(RewriteSteps(ss, o, inserted)) == RewriteLines(StepLines(ss), inserted)
  {
    hide Direct, RoutedSteps, Routed;
    if ss != [] {
      var direct := Direct(ss[0].line);
      RewriteStepsLines(ss[1..], o, inserted || direct);
      RoutedStepsLines(ss[0], o, inserted);
      StepLinesConcat(if direct then RoutedSteps(ss[0], o, inserted) else [ss[0]],
                      RewriteSteps(ss[1..], o, inserted || direct));
      assert StepLines([ss[0]]) == [ss[0].line];
      assert StepLines(ss)[1..] == StepLines(ss[1..]);
    }
  }

  // ---------------------------------------------------------------- single lines as rules

  lemma CommentIsNoRule(line: string)
    requires line != "" && line[0] == '#'
    ensures Parse(line) == None
  {
  }

  lemma {:induction false} WordOf(a: string, b: string)
    requires forall i :: 0 <= i < |a| ==> !Blank(a[i])
    requires b == "" || Blank(b[0])
    ensures WordLen(a + b) == |a|
  {
    if a == "" {
      assert a + b == b;
    } else {
      assert (a + b)[1..] == a[1..] + b;
      WordOf(a[1..], b);
    }
  }

  lemma FindNothing(s: string, c: char)
    requires c !in s
    ensures Find(s, c) == |s|
  {
  }

  ghost predicate Word(a: string) {
    a != "" && forall i :: 0 <= i < |a| ==> !Blank(a[i])
  }

  /** A control: one word, whose first closing bracket ends it if it starts with an opening one. */
  ghost predicate Control(b: string) {
    Word(b) && (b[0] == '[' ==> b[|b| - 1] == ']' && forall j :: 0 <= j < |b| - 1 ==> b[j] != ']')
  }

  lemma ControlAhead(b: string, tail: string)
    requires Control(b) && tail != "" && Blank(tail[0])
    ensures ControlLen(b + tail) == |b|
  {
    var s := b + tail;
    SplitWord(b, tail);
    hide WordLen;
    assert s[0] == b[0];
    if b[0] == '[' {
      FindUnique(s, ']', |b| - 1);
    }
  }

  /** A line of two words and more is read word by word. */
  lemma ReadWords(a: string, b: string, tail: string)
    requires Word(a) && Control(b)
    ensures ReadRule(a + (" " + (b + (" " + tail)))) == Rule(KindOf(a), Lower(b), SkipBlanks(tail))
  {
    hide KindOf, Lower, SkipBlanks, WordLen;
    var words := b + (" " + tail);
    SplitWord(a, " " + words);
    SkipOne(words);
    SplitWord(b, " " + tail);
    ControlAhead(b, " " + tail);
    SkipOne(tail);
  }

  lemma ParseWords(a: string, b: string, tail: string)
    requires Word(a) && Control(b)
    requires '#' !in a && '#' !in b && '#' !in tail
    ensures Parse(a + " " + b + " " + tail) == Some(Rule(KindOf(a), Lower(b), SkipBlanks(tail)))
  {
    hide KindOf, Lower, SkipBlanks, WordLen, ReadRule;
    var line := a + (" " + (b + (" " + tail)));
    assert line == a + " " + b + " " + tail;
    FindNothing(line, '#');
    assert line[..|line|] == line;
    SplitWord(a, " " + (b + (" " + tail)));
    ReadWords(a, b, tail);
  }

  lemma SkipOne(s: string)
    ensures SkipBlanks(" " + s) == SkipBlanks(s)
  {
  }

  /** A word before a blank is found at once and leaves what follows it. */
  lemma SplitWord(a: string, b: string)
    requires Word(a) && b != "" && Blank(b[0])
    ensures SkipBlanks(a + b) == a + b && WordLen(a + b) == |a|
    ensures (a + b)[..|a|] == a && (a + b)[|a|..] == b
  {
    WordOf(a, b);
  }

  /** The word that names the module of a rule. */
  function ModuleOf(r: Rule): string {
    r.rest[..WordLen(r.rest)]
  }

  /** The line is an auth rule that calls pam_irauth. */
  predicate CallsIrauth(line: string) {
    match Parse(line)
    case Some(r) => r.kind == Auth && Contains(ModuleOf(r), IRAUTH_MODULE)
    case None => false
  }

  /** Some auth rule calls pam_irauth; a comment that names it does not. */
  predicate RoutesAuth(ls: seq<string>) {
    exists i :: 0 <= i < |ls| && CallsIrauth(ls[i])
  }

  lemma IrauthLineParse()
    ensures Parse(IRAUTH_LINE) == Some(Rule(Auth, "sufficient", SkipBlanks(IRAUTH_MODULE + " reason=system")))
  {
    hide Parse, KindOf, IRAUTH_MODULE;
    var tail := IRAUTH_MODULE + " reason=system";
    assert IRAUTH_LINE == "auth" + " " + "sufficient" + " " + tail;
    IrauthTailHasNoHash();
    hide IRAUTH_LINE;
    ParseWords("auth", "sufficient", tail);
    AuthWord();
    assert Lower("sufficient") == "sufficient";
  }

  /** The inserted line is read as a sufficient auth rule that calls pam_irauth. */
  lemma IrauthLineRule()
    ensures Parse(IRAUTH_LINE).Some?
    ensures Parse(IRAUTH_LINE).value.kind == Auth && Parse(IRAUTH_LINE).value.control == "sufficient"
    ensures CallsIrauth(IRAUTH_LINE)
  {
    IrauthLineParse();
    IrauthModule();
    hide IRAUTH_LINE, IRAUTH_MODULE, Parse, Contains, SkipBlanks, WordLen;
  }

  lemma IrauthModule()
    ensures var tail := IRAUTH_MODULE + " reason=system";
            SkipBlanks(tail) == tail && WordLen(tail) == |IRAUTH_MODULE| && tail[..|IRAUTH_MODULE|] == IRAUTH_MODULE
    ensures Contains(IRAUTH_MODULE, IRAUTH_MODULE)
  {
    assert Word(IRAUTH_MODULE);
    assert At(IRAUTH_MODULE, 0, IRAUTH_MODULE);
    hide IRAUTH_MODULE;
    SplitWord(IRAUTH_MODULE, " reason=system");
  }

  lemma IrauthTailHasNoHash()
    ensures '#' !in IRAUTH_MODULE + " reason=system"
  {
  }

  lemma OddWordIsUnknown(w: string)
    requires w != "" && IsWhitespace(w[0])
    ensures KindOf(w) == Unknown
  {
  }

  /** A direct entry is never a rule of another kind: its first word is `auth`, or starts with
      white space that PAM does not skip. */
  lemma DirectKind(line: string)
    requires Direct(line) && Parse(line).Some?
    ensures Parse(line).value.kind == Auth || Parse(line).value.kind == Unknown
  {
    var s := line[..Find(line, '#')];
    assert Uncommented(line) == SkipBlanks(s);
    var t := TrimStart(line);
    TrimEndIsPrefix(t);
    assert t[..5] == "auth " by {
      assert Trim(line)[..5] == t[..5];
    }
    hide Direct, IsWhitespace, KindOf, TrimStart;
    SkipInTrim(line, s);
    var w := SkipBlanks(s);
    var n := WordLen(w);
    if IsWhitespace(w[0]) {
      OddWordIsUnknown(w[..n]);
    } else {
      FirstWordOfAuth(w, t);
    }
  }

  lemma FirstWordOfAuth(w: string, t: string)
    requires |w| <= |t| && w == t[..|w|]
    requires |t| >= 5 && t[..5] == "auth "
    ensures KindOf(w[..WordLen(w)]) == Auth || KindOf(w[..WordLen(w)]) == Unknown
  {
    hide KindOf;
    if |w| >= 5 {
      hide WordLen;
      LongWordOfAuth(w, t);
      AuthWord();
    } else {
      ShortWordKind(w[..WordLen(w)]);
    }
  }

  lemma LongWordOfAuth(w: string, t: string)
    requires 5 <= |w| <= |t| && w == t[..|w|] && t[..5] == "auth "
    ensures w[..WordLen(w)] == "auth"
  {
    hide WordLen, SkipBlanks;
    AuthPrefix(w, t);
    SplitWord("auth", " " + w[5..]);
  }

  lemma AuthPrefix(w: string, t: string)
    requires 5 <= |w| <= |t| && w == t[..|w|] && t[..5] == "auth "
    ensures w == "auth" + (" " + w[5..])
  {
  }

  lemma AuthWord()
    ensures KindOf("auth") == Auth
  {
  }

  lemma ShortWordKind(word: string)
    requires |word| <= 4
    ensures KindOf(word) == Auth || KindOf(word) == Unknown
  {
  }

  /** Skipping blanks in a prefix of a line stops inside its leading white space or at its text. */
  lemma {:induction false} SkipInTrim(line: string, s: string)
    requires |s| <= |line| && s == line[..|s|] && SkipBlanks(s) != ""
    ensures IsWhitespace(SkipBlanks(s)[0])
         || (|SkipBlanks(s)| <= |TrimStart(line)| && SkipBlanks(s) == TrimStart(line)[..|SkipBlanks(s)|])
  {
    assert Blank(s[0]) ==> IsWhitespace(line[0]);
    hide IsWhitespace;
    if Blank(s[0]) {
      assert s[1..] == line[1..][..|s[1..]|];
      SkipInTrim(line[1..], s[1..]);
    }
  }

  // ---------------------------------------------------------------- stacks of rewritten files

  lemma {:induction false} StackConcat(a: seq<Step>, b: seq<Step>, kind: Kind)
    ensures Stack(a + b, kind) == Stack(a, kind) + Stack(b, kind)
  {
    hide StackHead;
    if a == [] {
      assert a + b == b;
    } else {
      assert (a + b)[1..] == a[1..] + b;
      StackConcat(a[1..], b, kind);
    }
  }

  lemma RoutedStack(s: Step, o: Outcome, inserted: bool, kind: Kind)
    ensures Stack(RoutedSteps(s, o, inserted), kind)
         == if !inserted && kind == Auth then [Call("sufficient", o)] else []
  {
    hide MARKER, IRAUTH_LINE, Parse;
    MarkerShape();
    CommentIsNoRule(MARKER);
    CommentIsNoRule("# " + s.line);
    IrauthLineRule();
    var m, c, i := Step(MARKER, Ignored), Step("# " + s.line, Ignored), Step(IRAUTH_LINE, o);
    StackOne(m, kind);
    StackOne(c, kind);
    StackOne(i, kind);
    StackConcat([m], [c], kind);
    StackConcat([m, c], [i], kind);
    assert [m] + [c] == [m, c] && [m, c] + [] == [m, c];
  }

  lemma StackOne(s: Step, kind: Kind)
    ensures Stack([s], kind) == StackHead(s, kind)
  {
  }

  /** The auth calls of a rewritten file, one line at a time. */
  lemma RewriteHead(ss: seq<Step>, o: Outcome, inserted: bool, kind: Kind)
    requires ss != []
    ensures Direct(ss[0].line) ==>
              Stack(RewriteSteps(ss, o, inserted), kind)
              == (if !inserted && kind == Auth then [Call("sufficient", o)] else [])
                 + Stack(RewriteSteps(ss[1..], o, true), kind)
    ensures !Direct(ss[0].line) ==>
              Stack(RewriteSteps(ss, o, inserted), kind)
              == StackHead(ss[0], kind) + Stack(RewriteSteps(ss[1..], o, inserted), kind)
  {
    hide Direct, StackHead, RoutedSteps;
    if Direct(ss[0].line) {
      RoutedStack(ss[0], o, inserted, kind);
      StackConcat(RoutedSteps(ss[0], o, inserted), RewriteSteps(ss[1..], o, true), kind);
    } else {
      var rest := RewriteSteps(ss[1..], o, inserted);
      assert ([ss[0]] + rest)[1..] == rest;
    }
  }

  lemma WithoutDirectHead(ss: seq<Step>, kind: Kind)
    requires ss != []
    ensures Stack(WithoutDirect(ss), kind)
         == (if Direct(ss[0].line) then [] else StackHead(ss[0], kind)) + Stack(WithoutDirect(ss[1..]), kind)
  {
    hide Direct, StackHead;
    var rest := WithoutDirect(ss[1..]);
    assert ([ss[0]] + rest)[1..] == rest;
    assert [] + rest == rest;
  }

  /** Rules of every other kind keep their order, their outcomes and so their result. */
  lemma {:induction false} OtherKindsUnchanged(ss: seq<Step>, o: Outcome, inserted: bool, kind: Kind)
    requires kind == Account || kind == Password || kind == Session
    ensures Stack(RewriteSteps(ss, o, inserted), kind) == Stack(ss, kind)
  {
    hide Direct, Parse;
    if ss != [] {
      RewriteHead(ss, o, inserted, kind);
      if Direct(ss[0].line) {
        if Parse(ss[0].line).Some? {
          DirectKind(ss[0].line);
        }
        OtherKindsUnchanged(ss[1..], o, true, kind);
      } else {
        OtherKindsUnchanged(ss[1..], o, inserted, kind);
      }
    }
  }

  // ---------------------------------------------------------------- meaning preserved

  /** A refused check leaves the stack exactly where it was. */
  predicate FallsThrough(o: Outcome) {
    o.Failure? || o.Ignored?
  }

  /** Every jump lands among these calls or right behind the last of them. */
  ghost predicate JumpsStay(cs: seq<Call>, brackets: Brackets) {
    forall i :: 0 <= i < |cs| && ActionOf(cs[i], brackets).Jump? ==>
      i + 1 + ActionOf(cs[i], brackets).skip <= |cs|
  }

  lemma EvalHead(c: Call, a: seq<Call>, b: seq<Call>, p: Progress, brackets: Brackets)
    requires !ActionOf(c, brackets).Jump?
    requires forall q :: Eval(a, q, brackets) == Eval(b, q, brackets)
    ensures Eval([c] + a, p, brackets) == Eval([c] + b, p, brackets)
  {
  }

  /** A sufficient call that refuses is neutral behind calls whose jumps do not pass it. */
  lemma {:induction false} EvalInsertNeutral(a: seq<Call>, b: seq<Call>, o: Outcome, p: Progress, brackets: Brackets)
    requires FallsThrough(o) && JumpsStay(a, brackets)
    ensures Eval(a + [Call("sufficient", o)] + b, p, brackets) == Eval(a + b, p, brackets)
    decreases |a|
  {
    hide Accept, Reject, ActionOf;
    var n := [Call("sufficient", o)];
    var x, y := a + n + b, a + b;
    if a == [] {
      assert x == n + b && y == b;
      SufficientStep(b, o, p, brackets);
    } else {
      assert x[0] == a[0] && y[0] == a[0];
      forall m: nat, q | 1 <= m <= |a| ensures Eval(x[m..], q, brackets) == Eval(y[m..], q, brackets) {
        assert x[m..] == a[m..] + n + b && y[m..] == a[m..] + b;
        JumpsStayBehind(a, m, brackets);
        EvalInsertNeutral(a[m..], b, o, q, brackets);
      }
    }
  }

  lemma JumpsStayBehind(a: seq<Call>, m: nat, brackets: Brackets)
    requires m <= |a| && JumpsStay(a, brackets)
    ensures JumpsStay(a[m..], brackets)
  {
    hide ActionOf;
    assert forall i :: 0 <= i < |a| - m ==> a[m..][i] == a[m + i];
  }

  lemma StackHeadCases(s: Step)
    ensures StackHead(s, Auth) == [] || (|StackHead(s, Auth)| == 1 && StackHead(s, Auth) == [StackHead(s, Auth)[0]])
  {
  }

  // The lines ahead of the first direct entry, and the rest.

  function Ahead(ss: seq<Step>): seq<Step> {
    if ss == [] || Direct(ss[0].line) then [] else [ss[0]] + Ahead(ss[1..])
  }

  function Behind(ss: seq<Step>): seq<Step> {
    if ss == [] || Direct(ss[0].line) then ss else Behind(ss[1..])
  }

  /** Once the line is inserted, migrating only deletes. */
  lemma {:induction false} MigratedDeletes(ss: seq<Step>, o: Outcome)
    ensures Stack(RewriteSteps(ss, o, true), Auth) == Stack(WithoutDirect(ss), Auth)
  {
    hide Direct, StackHead;
    if ss != [] {
      RewriteHead(ss, o, true, Auth);
      WithoutDirectHead(ss, Auth);
      MigratedDeletes(ss[1..], o);
    }
  }

  lemma AheadHead(ss: seq<Step>)
    requires ss != [] && !Direct(ss[0].line)
    ensures Stack(Ahead(ss), Auth) == StackHead(ss[0], Auth) + Stack(Ahead(ss[1..]), Auth)
  {
    hide Direct, StackHead;
    assert ([ss[0]] + Ahead(ss[1..]))[1..] == Ahead(ss[1..]);
  }

  lemma Regroup(h: seq<Call>, a: seq<Call>, x: seq<Call>, b: seq<Call>)
    ensures h + (a + x + b) == h + a + x + b && h + (a + b) == h + a + b && [] + a == a + [] == a && [] + b == b
  {
  }

  /** The migrated calls are the original ones without the direct entries, and one more where the
      first of those was. */
  lemma {:induction false} MigratedInserts(ss: seq<Step>, o: Outcome)
    ensures Stack(WithoutDirect(ss), Auth) == Stack(Ahead(ss), Auth) + Stack(WithoutDirect(Behind(ss)), Auth)
    ensures Stack(RewriteSteps(ss, o, false), Auth)
         == Stack(Ahead(ss), Auth) + (if Behind(ss) == [] then [] else [Call("sufficient", o)])
            + Stack(WithoutDirect(Behind(ss)), Auth)
  {
    hide Direct, StackHead, Stack, RewriteSteps, WithoutDirect;
    if ss == [] {
      NothingToCall(o);
    } else {
      var h, rest := StackHead(ss[0], Auth), ss[1..];
      RewriteHead(ss, o, false, Auth);
      WithoutDirectHead(ss, Auth);
      if Direct(ss[0].line) {
        MigratedDeletes(rest, o);
        NothingToCall(o);
        Regroup([], [], [Call("sufficient", o)], Stack(WithoutDirect(rest), Auth));
      } else {
        MigratedInserts(rest, o);
        AheadHead(ss);
        var x := if Behind(ss) == [] then [] else [Call("sufficient", o)];
        var a, b := Stack(Ahead(rest), Auth), Stack(WithoutDirect(Behind(rest)), Auth);
        Regroup(h, a, x, b);
      }
    }
  }

  /** While pam_irauth refuses, a migrated stack answers exactly as the original stack with its
      direct Howdy entries deleted: the passwords behind them still decide. Jumps do no harm unless
      one ahead of the first direct entry leads past it. */
  lemma MigratedFallsThrough(ss: seq<Step>, o: Outcome, inserted: bool, p: Progress, brackets: Brackets)
    requires FallsThrough(o)
    requires inserted || JumpsStay(Stack(Ahead(ss), Auth), brackets)
    ensures Eval(Stack(RewriteSteps(ss, o, inserted), Auth), p, brackets)
         == Eval(Stack(WithoutDirect(ss), Auth), p, brackets)
  {
    hide Stack, RewriteSteps, WithoutDirect, Ahead, Behind, Eval, JumpsStay;
    if inserted {
      MigratedDeletes(ss, o);
    } else {
      MigratedInserts(ss, o);
      var a, b := Stack(Ahead(ss), Auth), Stack(WithoutDirect(Behind(ss)), Auth);
      if Behind(ss) == [] {
        assert a + [] + b == a + b;
      } else {
        EvalInsertNeutral(a, b, o, p, brackets);
      }
    }
  }

  /** No call jumps or wipes the verdict. */
  ghost predicate Steady(cs: seq<Call>, brackets: Brackets) {
    forall i :: 0 <= i < |cs| ==> !ActionOf(cs[i], brackets).Jump? && !ActionOf(cs[i], brackets).Reset?
  }

  /** Every direct entry is a sufficient auth rule that answers `o`. */
  ghost predicate AllDirectAre(ss: seq<Step>, o: Outcome) {
    forall i :: 0 <= i < |ss| && Direct(ss[i].line) ==> StackHead(ss[i], Auth) == [Call("sufficient", o)]
  }

  /** Once a sufficient call has let the stack go on, calling it again changes nothing. */
  predicate Spent(o: Outcome, p: Progress) {
    FallsThrough(o) || p.impression.Negative?
  }

  lemma SpentStep(c: Call, a: seq<Call>, b: seq<Call>, o: Outcome, p: Progress, brackets: Brackets)
    requires Spent(o, p) && !ActionOf(c, brackets).Jump? && !ActionOf(c, brackets).Reset?
    requires forall q :: Spent(o, q) ==> Eval(a, q, brackets) == Eval(b, q, brackets)
    ensures Eval([c] + a, p, brackets) == Eval([c] + b, p, brackets)
  {
  }

  lemma SufficientStep(a: seq<Call>, o: Outcome, p: Progress, brackets: Brackets)
    ensures Spent(o, p) ==> Eval([Call("sufficient", o)] + a, p, brackets) == Eval(a, p, brackets)
    ensures !Spent(o, p) ==> Eval([Call("sufficient", o)] + a, p, brackets) == Verdict(Accept(p, o))
  {
  }

  lemma AllDirectTail(ss: seq<Step>, o: Outcome)
    requires ss != [] && AllDirectAre(ss, o)
    ensures AllDirectAre(ss[1..], o)
    ensures Direct(ss[0].line) ==> StackHead(ss[0], Auth) == [Call("sufficient", o)]
  {
  }

  lemma SteadyTail(ss: seq<Step>, brackets: Brackets)
    requires ss != [] && Steady(Stack(ss, Auth), brackets)
    ensures Steady(Stack(ss[1..], Auth), brackets)
    ensures Steady(StackHead(ss[0], Auth), brackets)
  {
    hide StackHead, Steady;
    SteadyParts(StackHead(ss[0], Auth), Stack(ss[1..], Auth), brackets);
  }

  lemma SteadyParts(a: seq<Call>, b: seq<Call>, brackets: Brackets)
    requires Steady(a + b, brackets)
    ensures Steady(a, brackets) && Steady(b, brackets)
  {
    hide ActionOf;
    assert forall i :: 0 <= i < |a| ==> a[i] == (a + b)[i];
    assert forall i :: 0 <= i < |b| ==> b[i] == (a + b)[|a| + i];
  }

  /** If every direct entry was sufficient and pam_irauth gives the answer they gave, the migrated
      stack gives the original result, whatever stands between repeated entries. */
  lemma {:induction false} MigratedAgrees(ss: seq<Step>, o: Outcome, inserted: bool, p: Progress, brackets: Brackets)
    requires AllDirectAre(ss, o) && Steady(Stack(ss, Auth), brackets)
    requires inserted ==> Spent(o, p)
    ensures Eval(Stack(RewriteSteps(ss, o, inserted), Auth), p, brackets)
         == Eval(Stack(ss, Auth), p, brackets)
  {
    hide Direct, StackHead, ActionOf, Accept, FallsThrough;
    if ss != [] {
      RewriteHead(ss, o, inserted, Auth);
      AllDirectTail(ss, o);
      SteadyTail(ss, brackets);
      var a, b := Stack(RewriteSteps(ss[1..], o, inserted || Direct(ss[0].line)), Auth), Stack(ss[1..], Auth);
      forall q | !(inserted || Direct(ss[0].line)) || Spent(o, q)
        ensures Eval(a, q, brackets) == Eval(b, q, brackets)
      {
        MigratedAgrees(ss[1..], o, inserted || Direct(ss[0].line), q, brackets);
      }
      if Direct(ss[0].line) {
        SufficientStep(a, o, p, brackets);
        SufficientStep(b, o, p, brackets);
        assert [] + a == a;
      } else {
        StackHeadCases(ss[0]);
        var h := StackHead(ss[0], Auth);
        if h == [] {
          assert h + a == a && h + b == b;
        } else if inserted {
          SpentStep(h[0], a, b, o, p, brackets);
        } else {
          EvalHead(h[0], a, b, p, brackets);
        }
      }
    }
  }

  const JUMP := "[success=1]"

  /** A stack that jumps over the rule behind its direct entry. */
  function JumpingFile(): seq<Step> {
    [Step("auth" + " " + JUMP + " " + "pam_a.so", Success),
     Step("auth" + " " + "sufficient" + " " + "pam_howdy.so", REFUSED),
     Step("auth" + " " + "required" + " " + "pam_b.so", MUST_FAIL),
     Step("auth" + " " + "required" + " " + "pam_c.so", Success)]
  }

  lemma AuthHead(control: string, tail: string, o: Outcome)
    requires Control(control) && '#' !in control && '#' !in tail
    ensures StackHead(Step("auth" + " " + control + " " + tail, o), Auth) == [Call(Lower(control), o)]
  {
    hide Parse, KindOf, Lower, Control, SkipBlanks;
    AuthWord();
    ParseWords("auth", control, tail);
  }

  lemma JumpingHeads()
    ensures var ss := JumpingFile();
            && StackHead(ss[0], Auth) == [Call(JUMP, Success)]
            && StackHead(ss[2], Auth) == [Call("required", MUST_FAIL)]
            && StackHead(ss[3], Auth) == [Call("required", Success)]
  {
    hide StackHead;
    assert Lower(JUMP) == JUMP && Lower("required") == "required";
    AuthHead(JUMP, "pam_a.so", Success);
    AuthHead("required", "pam_b.so", MUST_FAIL);
    AuthHead("required", "pam_c.so", Success);
  }

  lemma JumpingDirect()
    ensures var ss := JumpingFile();
            !Direct(ss[0].line) && Direct(ss[1].line) && !Direct(ss[2].line) && !Direct(ss[3].line)
  {
    hide Direct;
    OtherModule(JUMP, "pam_a.so");
    OtherModule("required", "pam_b.so");
    OtherModule("required", "pam_c.so");
    HowdyIsDirect();
  }

  lemma OtherModule(control: string, tail: string)
    requires 'w' !in control && 'W' !in control && 'w' !in tail && 'W' !in tail
    ensures !Direct("auth" + " " + control + " " + tail)
  {
    hide Direct;
    NotDirectWithoutW("auth" + " " + control + " " + tail);
  }

  lemma HowdyIsDirect()
    ensures Direct("auth" + " " + "sufficient" + " " + "pam_howdy.so")
  {
    var line := "auth" + " " + "sufficient" + " " + "pam_howdy.so";
    hide Trim;
    TrimOfTrimmed(line);
    assert line[..5] == "auth " && line[..1] == "a";
    assert At(Lower(line), 20, "howdy");
  }

  /** The calls of four rules of which the second is direct. */
  lemma FourStacks(a: Step, b: Step, c: Step, d: Step, x: Call, y: Call, z: Call, o: Outcome)
    requires !Direct(a.line) && Direct(b.line) && !Direct(c.line) && !Direct(d.line)
    requires StackHead(a, Auth) == [x] && StackHead(c, Auth) == [y] && StackHead(d, Auth) == [z]
    ensures Stack(WithoutDirect([a, b, c, d]), Auth) == [x, y, z]
    ensures Stack(RewriteSteps([a, b, c, d], o, false), Auth) == [x, Call("sufficient", o), y, z]
  {
    hide Direct, StackHead, Stack, RewriteSteps, WithoutDirect;
    assert [a, b, c, d][1..] == [b, c, d] && [b, c, d][1..] == [c, d] && [c, d][1..] == [d] && [d][1..] == [];
    NothingToCall(o);
    WithoutDirectHead([d], Auth);
    WithoutDirectHead([c, d], Auth);
    WithoutDirectHead([b, c, d], Auth);
    WithoutDirectHead([a, b, c, d], Auth);
    RewriteHead([d], o, true, Auth);
    RewriteHead([c, d], o, true, Auth);
    RewriteHead([b, c, d], o, false, Auth);
    RewriteHead([a, b, c, d], o, false, Auth);
  }

  lemma NothingToCall(o: Outcome)
    ensures Stack([], Auth) == [] && Stack(WithoutDirect([]), Auth) == []
    ensures forall inserted :: Stack(RewriteSteps([], o, inserted), Auth) == []
  {
  }

  /** The condition on jumps is needed: in this file the jump lands on the failing rule once the
      inserted line stands in between, and the result changes from success to failure. */
  lemma JumpsWouldMatter(brackets: Brackets)
    requires brackets(JUMP, Success) == Jump(1)
    ensures var ss := JumpingFile();
            && Run(WithoutDirect(ss), Auth, brackets) == Success
            && Run(RewriteSteps(ss, REFUSED, false), Auth, brackets) == MUST_FAIL
  {
    var ss := JumpingFile();
    JumpingDirect();
    JumpingHeads();
    JumpNames();
    assert ss == [ss[0], ss[1], ss[2], ss[3]];
    hide JumpingFile, Stack, StackHead, Direct, RewriteSteps, WithoutDirect, JUMP;
    FourStacks(ss[0], ss[1], ss[2], ss[3],
               Call(JUMP, Success), Call("required", MUST_FAIL), Call("required", Success), REFUSED);
    JumpOverFailure(Call(JUMP, Success), brackets);
  }

  lemma JumpNames()
    ensures JUMP != "required" && JUMP != "requisite" && JUMP != "sufficient" && JUMP != "optional"
  {
    assert JUMP[0] == '[';
  }

  lemma JumpOverFailure(jump: Call, brackets: Brackets)
    requires ActionOf(jump, brackets) == Jump(1)
    ensures var fail, good := Call("required", MUST_FAIL), Call("required", Success);
            var irauth := Call("sufficient", REFUSED);
            && Eval([jump, fail, good], START, brackets) == Success
            && Eval([jump, irauth, fail, good], START, brackets) == MUST_FAIL
  {
    var fail, good, irauth := Call("required", MUST_FAIL), Call("required", Success), Call("sufficient", REFUSED);
    assert ActionOf(fail, brackets) == Bad && ActionOf(good, brackets) == Ok;
    hide ActionOf;
    var a, b := [jump, fail, good], [jump, irauth, fail, good];
    assert a[2..] == [good] && b[2..] == [fail, good] && [fail, good][1..] == [good] && [good][1..] == [];
    assert Eval(a, START, brackets) == Eval([good], START, brackets);
    assert Eval([good], START, brackets) == Eval([], Accept(START, Success), brackets) == Success;
    assert Eval(b, START, brackets) == Eval([fail, good], START, brackets);
    var no := Reject(START, MUST_FAIL);
    assert Eval([fail, good], START, brackets) == Eval([good], no, brackets);
    assert Eval([good], no, brackets) == Eval([], no, brackets) == MUST_FAIL;
  }

  const RESET := "[success=reset]"

  /** A stack that wipes its verdict between two direct entries. */
  function ResettingFile(): seq<Step> {
    [Step("auth" + " " + "required" + " " + "pam_a.so", MUST_FAIL),
     Step("auth" + " " + "sufficient" + " " + "pam_howdy.so", Success),
     Step("auth" + " " + RESET + " " + "pam_b.so", Success),
     Step("auth" + " " + "sufficient" + " " + "pam_howdy.so", Success)]
  }

  lemma ControlsAreLower()
    ensures Lower(RESET) == RESET && Lower("required") == "required" && Lower("sufficient") == "sufficient"
  {
  }

  lemma ResettingHeads()
    ensures var ss := ResettingFile();
            && StackHead(ss[0], Auth) == [Call("required", MUST_FAIL)]
            && StackHead(ss[1], Auth) == [Call("sufficient", Success)]
            && StackHead(ss[2], Auth) == [Call(RESET, Success)]
            && StackHead(ss[3], Auth) == [Call("sufficient", Success)]
  {
    ControlsAreLower();
    hide StackHead, Lower;
    AuthHead("required", "pam_a.so", MUST_FAIL);
    AuthHead("sufficient", "pam_howdy.so", Success);
    AuthHead(RESET, "pam_b.so", Success);
  }

  lemma ResettingDirect()
    ensures var ss := ResettingFile();
            !Direct(ss[0].line) && Direct(ss[1].line) && !Direct(ss[2].line) && Direct(ss[3].line)
  {
    hide Direct;
    OtherModule("required", "pam_a.so");
    OtherModule(RESET, "pam_b.so");
    HowdyIsDirect();
  }

  lemma ResettingAgree()
    ensures AllDirectAre(ResettingFile(), Success)
  {
    ResettingDirect();
    ResettingHeads();
    hide Direct, StackHead, RESET;
  }

  lemma FourCalls(a: Step, b: Step, c: Step, d: Step, w: Call, x: Call, y: Call, z: Call)
    requires StackHead(a, Auth) == [w] && StackHead(b, Auth) == [x]
    requires StackHead(c, Auth) == [y] && StackHead(d, Auth) == [z]
    ensures Stack([a, b, c, d], Auth) == [w, x, y, z]
  {
    hide StackHead, Stack;
    StackOne(a, Auth);
    StackOne(b, Auth);
    StackOne(c, Auth);
    StackOne(d, Auth);
    assert [a, b] == [a] + [b] && [c, d] == [c] + [d] && [a, b, c, d] == [a, b] + [c, d];
    StackConcat([a], [b], Auth);
    StackConcat([c], [d], Auth);
    StackConcat([a, b], [c, d], Auth);
  }

  /** Four rules of which the second and the fourth are direct, after migration. */
  lemma ThreeCallsLeft(a: Step, b: Step, c: Step, d: Step, w: Call, y: Call, o: Outcome)
    requires !Direct(a.line) && Direct(b.line) && !Direct(c.line) && Direct(d.line)
    requires StackHead(a, Auth) == [w] && StackHead(c, Auth) == [y]
    ensures Stack(RewriteSteps([a, b, c, d], o, false), Auth) == [w, Call("sufficient", o), y]
  {
    hide Direct, StackHead, RewriteSteps, WithoutDirect, Stack;
    assert [a, b, c, d][1..] == [b, c, d] && [b, c, d][1..] == [c, d] && [c, d][1..] == [d] && [d][1..] == [];
    NothingToCall(o);
    RewriteHead([d], o, true, Auth);
    RewriteHead([c, d], o, true, Auth);
    assert Stack(RewriteSteps([c, d], o, true), Auth) == [y] + [];
    RewriteHead([b, c, d], o, false, Auth);
    assert Stack(RewriteSteps([b, c, d], o, false), Auth) == [Call("sufficient", o)] + [y];
    RewriteHead([a, b, c, d], o, false, Auth);
    assert Stack(RewriteSteps([a, b, c, d], o, false), Auth) == [w] + [Call("sufficient", o), y];
  }

  /** The condition on resets is needed as well: in this file the second direct entry alone is behind
      the reset, and without it the result changes from success to failure, although pam_irauth
      gives the answer that Howdy gave. */
  lemma ResetsWouldMatter(brackets: Brackets)
    requires brackets(RESET, Success) == Reset
    ensures var ss := ResettingFile();
            && AllDirectAre(ss, Success)
            && Run(ss, Auth, brackets) == Success
            && Run(RewriteSteps(ss, Success, false), Auth, brackets) == MUST_FAIL
  {
    var ss := ResettingFile();
    assert ss == [ss[0], ss[1], ss[2], ss[3]];
    hide ResettingFile, Stack, StackHead, Direct, RewriteSteps, RESET, ActionOf, Eval, AllDirectAre;
    ResettingAgree();
    ResettingDirect();
    ResettingHeads();
    ResetName(brackets);
    var fail, face, reset := Call("required", MUST_FAIL), Call("sufficient", Success), Call(RESET, Success);
    FourCalls(ss[0], ss[1], ss[2], ss[3], fail, face, reset, face);
    ThreeCallsLeft(ss[0], ss[1], ss[2], ss[3], fail, reset, Success);
    FailureReset(Call(RESET, Success), brackets);
  }

  lemma ResetName(brackets: Brackets)
    requires brackets(RESET, Success) == Reset
    ensures ActionOf(Call(RESET, Success), brackets) == Reset
  {
    assert RESET[0] == '[';
  }

  lemma FailureReset(reset: Call, brackets: Brackets)
    requires ActionOf(reset, brackets) == Reset
    ensures var fail, face := Call("required", MUST_FAIL), Call("sufficient", Success);
            && Eval([fail, face, reset, face], START, brackets) == Success
            && Eval([fail, face, reset], START, brackets) == MUST_FAIL
  {
    var fail, face := Call("required", MUST_FAIL), Call("sufficient", Success);
    assert ActionOf(fail, brackets) == Bad && ActionOf(face, brackets) == Done;
    hide ActionOf;
    var a, b, no := [fail, face, reset, face], [fail, face, reset], Reject(START, MUST_FAIL);
    assert a[1..] == [face, reset, face] && a[1..][1..] == [reset, face] && a[1..][1..][1..] == [face];
    assert b[1..] == [face, reset] && b[1..][1..] == [reset] && b[1..][1..][1..] == [];
    assert Eval(a, START, brackets) == Eval(a[1..], no, brackets) == Eval(a[1..][1..], no, brackets);
    assert Eval(a[1..][1..], no, brackets) == Eval([face], START, brackets) == Success;
    assert Eval(b, START, brackets) == Eval(b[1..], no, brackets) == Eval(b[1..][1..], no, brackets);
    assert Eval(b[1..][1..], no, brackets) == Eval([], START, brackets) == MUST_FAIL;
  }

  ghost predicate OneDirect(ss: seq<Step>) {
    forall i, j :: 0 <= i < j < |ss| ==> !(Direct(ss[i].line) && Direct(ss[j].line))
  }

  lemma {:induction false} NoDirectSame(ss: seq<Step>, o: Outcome, inserted: bool)
    requires forall i :: 0 <= i < |ss| ==> !Direct(ss[i].line)
    ensures RewriteSteps(ss, o, inserted) == ss
  {
    hide Direct;
    if ss != [] {
      assert forall i :: 0 <= i < |ss[1..]| ==> ss[1..][i] == ss[i + 1];
      NoDirectSame(ss[1..], o, inserted);
    }
  }

  /** With a single direct entry the migrated stack makes the very calls of the original, so jumps
      and resets do no harm either. */
  lemma {:induction false} OneDirectSameCalls(ss: seq<Step>, o: Outcome)
    requires AllDirectAre(ss, o) && OneDirect(ss)
    ensures Stack(RewriteSteps(ss, o, false), Auth) == Stack(ss, Auth)
  {
    hide Direct, StackHead;
    if ss != [] {
      RewriteHead(ss, o, false, Auth);
      AllDirectTail(ss, o);
      assert forall i :: 0 <= i < |ss[1..]| ==> ss[1..][i] == ss[i + 1];
      if Direct(ss[0].line) {
        NoDirectSame(ss[1..], o, true);
      } else {
        OneDirectSameCalls(ss[1..], o);
      }
    }
  }

  /** The theorems on whole files: what the rewritten lines mean is what the original lines meant,
      and they are the lines a later reader finds, exactly if none of them ends in a carriage
      return. */
  lemma MigratedFile(text: string, ss: seq<Step>, o: Outcome, brackets: Brackets)
    requires StepLines(ss) == Lines(text)
    ensures StepLines(RewriteSteps(ss, o, false)) == Lines(RewriteText(text)) <==> CrFree(Lines(text))
    ensures FallsThrough(o) && JumpsStay(Stack(Ahead(ss), Auth), brackets) ==>
              Run(RewriteSteps(ss, o, false), Auth, brackets) == Run(WithoutDirect(ss), Auth, brackets)
    ensures AllDirectAre(ss, o) && (OneDirect(ss) || Steady(Stack(ss, Auth), brackets)) ==>
              Run(RewriteSteps(ss, o, false), Auth, brackets) == Run(ss, Auth, brackets)
    ensures forall kind :: kind == Account || kind == Password || kind == Session ==>
              Run(RewriteSteps(ss, o, false), kind, brackets) == Run(ss, kind, brackets)
  {
    hide Direct, Stack, Eval, Lines, JumpsStay, Steady, OneDirect, Ahead;
    RewriteStepsLines(ss, o, false);
    ReadRewritten(text);
    CrFreeRewritten(Lines(text), false);
    StripCrsSame(RewriteLines(Lines(text), false));
    if FallsThrough(o) && JumpsStay(Stack(Ahead(ss), Auth), brackets) {
      MigratedFallsThrough(ss, o, false, START, brackets);
    }
    if AllDirectAre(ss, o) {
      if OneDirect(ss) {
        OneDirectSameCalls(ss, o);
      } else if Steady(Stack(ss, Auth), brackets) {
        MigratedAgrees(ss, o, false, START, brackets);
      }
    }
    forall kind | kind == Account || kind == Password || kind == Session
      ensures Run(RewriteSteps(ss, o, false), kind, brackets) == Run(ss, kind, brackets)
    {
      OtherKindsUnchanged(ss, o, false, kind);
    }
  }

  lemma StripCrsSame(ls: seq<string>)
    ensures StripCrs(ls) == ls <==> CrFree(ls)
  {
  }

  // ---------------------------------------------------------------- the inserted stanza

  function StanzaSteps(o: Outcome): seq<Step> {
    [Step(BEGIN, Ignored), Step(IRAUTH_LINE, o), Step(END, Ignored)]
  }

  /** The line the stanza is inserted behind, or 0 when it goes to the front. */
  function InsertionPoint(ls: seq<string>): (k: nat)
    ensures k <= |ls|
  {
    if HasHeader(ls) then AfterHeader(ls) else 0
  }

  function AfterHeader(ls: seq<string>): (k: nat)
    ensures k <= |ls|
  {
    if ls == [] then 0 else if Header(ls[0]) then 1 else 1 + AfterHeader(ls[1..])
  }

  function EnableSteps(ss: seq<Step>, o: Outcome): seq<Step> {
    var k := InsertionPoint(StepLines(ss));
    ss[..k] + StanzaSteps(o) + ss[k..]
  }

  lemma SpliceTail<T>(t: seq<T>, k: nat, m: seq<T>)
    requires k < |t|
    ensures [t[0]] + (t[1..][..k] + m + t[1..][k..]) == t[..k + 1] + m + t[k + 1..]
  {
  }

  lemma {:induction false} InsertAtPoint(ls: seq<string>)
    requires HasHeader(ls)
    ensures InsertAfterHeader(ls) == ls[..AfterHeader(ls)] + STANZA + ls[AfterHeader(ls)..]
  {
    hide Header, STANZA;
    SplitHead(ls);
    hide HasHeader;
    if Header(ls[0]) {
      assert ls[..1] == [ls[0]];
    } else {
      InsertAtPoint(ls[1..]);
      SpliceTail(ls, AfterHeader(ls[1..]), STANZA);
    }
  }

  lemma EnableSplices(ls: seq<string>)
    ensures var k := InsertionPoint(ls); EnableLines(ls) == ls[..k] + STANZA + ls[k..]
  {
    hide Header, HasHeader, STANZA;
    if HasHeader(ls) {
      InsertAtPoint(ls);
    } else {
      assert ls[..0] == [] && ls[0..] == ls;
    }
  }

  /** EnableSteps runs the very lines pam_enable writes. */
  lemma EnableStepsLines(ss: seq<Step>, o: Outcome)
    ensures StepLines(EnableSteps(ss, o)) == EnableLines(StepLines(ss))
  {
    hide BEGIN, IRAUTH_LINE, END, InsertionPoint, EnableLines;
    var ls := StepLines(ss);
    var k := InsertionPoint(ls);
    EnableSplices(ls);
    assert StepLines(ss[..k]) == ls[..k] && StepLines(ss[k..]) == ls[k..];
    assert StepLines(StanzaSteps(o)) == STANZA;
    hide StepLines, STANZA, StanzaSteps;
    StepLinesConcat(ss[..k], StanzaSteps(o));
    StepLinesConcat(ss[..k] + StanzaSteps(o), ss[k..]);
  }

  lemma RoutesThere(ls: seq<string>)
    requires IRAUTH_LINE in ls
    ensures RoutesAuth(StripCrs(ls))
  {
    var i :| 0 <= i < |ls| && ls[i] == IRAUTH_LINE;
    assert StripCr(IRAUTH_LINE) == IRAUTH_LINE by {
      IrauthLineShape();
    }
    hide IRAUTH_LINE, CallsIrauth;
    IrauthLineRule();
    assert StripCrs(ls)[i] == IRAUTH_LINE;
  }

  /** An enabled file has an auth rule that calls pam_irauth. */
  lemma EnableRoutes(text: string)
    ensures RoutesAuth(Lines(EnableText(text)))
  {
    hide IRAUTH_LINE, InsertionPoint, EnableLines, Lines, EnableText, RoutesAuth;
    var ls := Lines(text);
    EnableSplices(ls);
    assert STANZA[1] == IRAUTH_LINE;
    ReadEnabled(text);
    RoutesThere(EnableLines(ls));
  }

  lemma {:induction false} RewriteInserts(ls: seq<string>)
    requires HasDirect(ls)
    ensures IRAUTH_LINE in RewriteLines(ls, false)
  {
    hide MARKER, IRAUTH_LINE, Direct;
    if Direct(ls[0]) {
      assert Routed(ls[0], false)[2] == IRAUTH_LINE;
    } else {
      assert forall i :: 0 < i < |ls| ==> ls[i] == ls[1..][i - 1];
      RewriteInserts(ls[1..]);
    }
  }

  /** So has a migrated one. */
  lemma RewriteRoutes(text: string)
    requires HasDirect(Lines(text))
    ensures RoutesAuth(Lines(RewriteText(text)))
  {
    hide IRAUTH_LINE, Lines, RewriteText, RewriteLines, RoutesAuth, HasDirect;
    RewriteInserts(Lines(text));
    ReadRewritten(text);
    RoutesThere(RewriteLines(Lines(text), false));
  }

  const COMMENT := "#pam_irauth.so"

  lemma CommentLines()
    ensures Lines(COMMENT + "\n") == [COMMENT] && HasIrauth([COMMENT])
  {
    var text := COMMENT + "\n";
    FindUnique(text, '\n', 14);
    assert text[..14] == COMMENT && text[15..] == "";
    assert At(COMMENT, 1, IRAUTH_MODULE);
    assert MentionsIrauth([COMMENT][0]);
  }

  /** A comment that names the module is no rule and calls nothing. */
  lemma CommentRoutesNothing()
    ensures var ls := Lines(COMMENT + "\n"); HasIrauth(ls) && !RoutesAuth(ls)
    ensures forall ss, kind :: StepLines(ss) == Lines(COMMENT + "\n") ==> Stack(ss, kind) == []
  {
    CommentLines();
    assert COMMENT[0] == '#';
    hide Lines, HasIrauth, Parse, COMMENT;
    CommentIsNoRule(COMMENT);
    forall ss: seq<Step>, kind | StepLines(ss) == [COMMENT] ensures Stack(ss, kind) == [] {
      assert |ss| == 1 && ss[0].line == StepLines(ss)[0];
      assert ss == [ss[0]];
      StackOne(ss[0], kind);
    }
  }

  lemma StanzaStack(o: Outcome)
    ensures Stack(StanzaSteps(o), Auth) == [Call("sufficient", o)]
  {
    hide BEGIN, END, IRAUTH_LINE, Parse;
    assert BEGIN[0] == '#' && END[0] == '#' by {
      StanzaDelimitersAreComments();
    }
    CommentIsNoRule(BEGIN);
    CommentIsNoRule(END);
    IrauthLineRule();
    var b, i, e := Step(BEGIN, Ignored), Step(IRAUTH_LINE, o), Step(END, Ignored);
    StackOne(b, Auth);
    StackOne(i, Auth);
    StackOne(e, Auth);
    StackConcat([b], [i], Auth);
    StackConcat([b, i], [e], Auth);
    assert [b] + [i] == [b, i] && [b, i] + [e] == StanzaSteps(o);
  }

  lemma StanzaDelimitersAreComments()
    ensures BEGIN != "" && BEGIN[0] == '#' && END != "" && END[0] == '#'
  {
  }

  /** With the stanza ahead of every auth rule and pam_irauth refusing, the stack answers as it did,
      jumps included: they count from rule to rule and none starts above the stanza. */
  lemma EnabledInFrontFallsThrough(ss: seq<Step>, o: Outcome, brackets: Brackets)
    requires FallsThrough(o)
    requires Stack(ss[..InsertionPoint(StepLines(ss))], Auth) == []
    ensures Run(EnableSteps(ss, o), Auth, brackets) == Run(ss, Auth, brackets)
  {
    hide StanzaSteps, InsertionPoint, Stack;
    var k := InsertionPoint(StepLines(ss));
    var cs := Stack(ss[k..], Auth);
    assert ss == ss[..k] + ss[k..];
    StackConcat(ss[..k], ss[k..], Auth);
    StackConcat(ss[..k] + StanzaSteps(o), ss[k..], Auth);
    StackConcat(ss[..k], StanzaSteps(o), Auth);
    StanzaStack(o);
    assert ([Call("sufficient", o)] + cs)[1..] == cs;
    assert [] + cs == cs && [] + [Call("sufficient", o)] == [Call("sufficient", o)];
  }

  /** The same when auth rules stand above the stanza, if none of them jumps past it. */
  lemma EnabledFallsThrough(ss: seq<Step>, o: Outcome, brackets: Brackets)
    requires FallsThrough(o)
    requires JumpsStay(Stack(ss[..InsertionPoint(StepLines(ss))], Auth), brackets)
    ensures Run(EnableSteps(ss, o), Auth, brackets) == Run(ss, Auth, brackets)
  {
    hide StanzaSteps, InsertionPoint, Stack;
    var k := InsertionPoint(StepLines(ss));
    assert ss == ss[..k] + ss[k..];
    StackConcat(ss[..k], ss[k..], Auth);
    StackConcat(ss[..k] + StanzaSteps(o), ss[k..], Auth);
    StackConcat(ss[..k], StanzaSteps(o), Auth);
    StanzaStack(o);
    EvalInsertNeutral(Stack(ss[..k], Auth), Stack(ss[k..], Auth), o, START, brackets);
  }
}
