// The wire format spelled out in characters: exactly which lines are which request, and which text
// each response is.
module ProtocolWire {
  import opened Text
  import opened Protocol

  // ---------------------------------------------------------------- the version word

  ghost predicate Zeros(s: string) {
    forall i :: 0 <= i < |s| ==> s[i] == '0'
  }

  /** `V`, perhaps a plus sign, any number of zeros, and `1`. */
  ghost predicate VersionWord(word: string, sign: string, zeros: string) {
    (sign == "" || sign == "+") && Zeros(zeros) && word == "V" + sign + zeros + "1"
  }

  lemma {:induction false} ValueZero(digits: string)
    requires AllDigits(digits)
    ensures DecimalValue(digits) == 0 <==> Zeros(digits)
  {
    if digits != "" {
      var front := digits[..|digits| - 1];
      ValueZero(front);
      assert digits == front + [digits[|digits| - 1]];
      assert forall i :: 0 <= i < |front| ==> front[i] == digits[i];
    }
  }

  lemma ValueOne(digits: string)
    requires AllDigits(digits)
    ensures DecimalValue(digits) == 1 <==> digits != "" && digits[|digits| - 1] == '1' && Zeros(digits[..|digits| - 1])
  {
    if digits != "" {
      ValueZero(digits[..|digits| - 1]);
    }
  }

  lemma ParsesOne(sign: string, digits: string)
    requires sign == "" || sign == "+"
    requires digits != "" && AllDigits(digits)
    ensures ParseU32(sign + digits) == Some(1) <==> DecimalValue(digits) == 1
  {
    hide DecimalValue;
    var s := sign + digits;
    if sign == "+" {
      assert s[1..] == digits && s[0] == '+' && |s| > 1;
    } else {
      assert s == digits && s[0] != '+';
    }
  }

  lemma ParsedParts(s: string) returns (sign: string, digits: string)
    requires ParseU32(s).Some?
    ensures s == sign + digits && (sign == "" || sign == "+")
    ensures digits != "" && AllDigits(digits)
  {
    if |s| > 1 && s[0] == '+' {
      sign, digits := "+", s[1..];
    } else {
      sign, digits := "", s;
    }
  }

  lemma VersionOneIsWord(word: string)
    requires VersionOne(word)
    ensures exists sign, zeros :: VersionWord(word, sign, zeros)
  {
    hide DecimalValue, ParseU32, Zeros;
    var s := word[1..];
    var sign, digits := ParsedParts(s);
    ParsesOne(sign, digits);
    ValueOne(digits);
    var zeros := digits[..|digits| - 1];
    assert digits == zeros + "1" && word == "V" + s;
    assert VersionWord(word, sign, zeros);
  }

  lemma WordIsVersionOne(word: string, sign: string, zeros: string)
    requires VersionWord(word, sign, zeros)
    ensures VersionOne(word) && '\t' !in word
  {
    var digits := zeros + "1";
    assert word[1..] == sign + digits;
    assert AllDigits(digits);
    assert digits[..|digits| - 1] == zeros;
    hide DecimalValue, ParseU32, Zeros;
    ValueOne(digits);
    ParsesOne(sign, digits);
    assert word == "V" + (sign + digits);
  }

  // ---------------------------------------------------------------- taking lines apart

  function Join(parts: seq<string>, c: char): string
    requires parts != []
  {
    if |parts| == 1 then parts[0] else parts[0] + [c] + Join(parts[1..], c)
  }

  lemma {:induction false} JoinOfSplit(s: string, c: char)
    ensures Join(Split(s, c), c) == s
    ensures forall i :: 0 <= i < |Split(s, c)| ==> c !in Split(s, c)[i]
  {
    hide Split;
    var i := Find(s, c);
    if i < |s| {
      var rest := s[i + 1..];
      SplitFirst(s, c, i);
      JoinOfSplit(rest, c);
      assert s == s[..i] + [c] + rest;
      assert ([s[..i]] + Split(rest, c))[1..] == Split(rest, c);
    } else {
      SplitWithout(s, c);
    }
  }

  predicate Eols(s: string) {
    forall i :: 0 <= i < |s| ==> s[i] == '\r' || s[i] == '\n'
  }

  predicate EndsInEol(s: string) {
    s != "" && (s[|s| - 1] == '\r' || s[|s| - 1] == '\n')
  }

  lemma {:induction false} TrimEolDrops(line: string)
    ensures var body := TrimEol(line);
            && |body| <= |line| && line[..|body|] == body && Eols(line[|body|..])
            && !EndsInEol(body)
  {
    if line != "" && (line[|line| - 1] == '\r' || line[|line| - 1] == '\n') {
      TrimEolDrops(line[..|line| - 1]);
      var body := TrimEol(line);
      assert line[|body|..] == line[..|line| - 1][|body|..] + [line[|line| - 1]];
    }
  }

  lemma {:induction false} TrimEolStops(body: string, eols: string)
    requires Eols(eols) && !EndsInEol(body)
    ensures TrimEol(body + eols) == body
  {
    if eols == "" {
      assert body + eols == body;
    } else {
      assert (body + eols)[..|body + eols| - 1] == body + eols[..|eols| - 1];
      TrimEolStops(body, eols[..|eols| - 1]);
    }
  }

  lemma FourParts(parts: seq<string>)
    requires |parts| == 4
    ensures Join(parts, '\t') == parts[0] + "\t" + parts[1] + "\t" + parts[2] + "\t" + parts[3]
  {
    assert parts[1..][1..] == parts[2..] && parts[2..][1..] == parts[3..];
    assert Join(parts[3..], '\t') == parts[3];
    assert Join(parts[2..], '\t') == parts[2] + "\t" + parts[3];
    assert Join(parts[1..], '\t') == parts[1] + "\t" + (parts[2] + "\t" + parts[3]);
    assert Join(parts, '\t') == parts[0] + "\t" + (parts[1] + "\t" + (parts[2] + "\t" + parts[3]));
  }

  lemma TwoParts(parts: seq<string>)
    requires |parts| == 2
    ensures Join(parts, '\t') == parts[0] + "\t" + parts[1]
  {
    assert Join(parts[1..], '\t') == parts[1];
  }

  // ---------------------------------------------------------------- requests

  /** One to 256 bytes without control characters. */
  ghost predicate Field(s: string) {
    1 <= Utf8Len(s) <= 256 && forall c :: c in s ==> !(c <= '\U{1f}' || '\U{7f}' <= c <= '\U{9f}')
  }

  lemma FieldExactly(s: string)
    ensures ValidField(s) <==> Field(s)
  {
    hide Utf8Len;
    assert forall i :: 0 <= i < |s| ==> s[i] in s;
    NoBytes(s);
  }

  lemma NoBytes(s: string)
    ensures Utf8Len(s) == 0 <==> s == ""
  {
  }

  /** The line asks to authenticate this user for this reason. */
  ghost predicate AsksFor(line: string, user: string, reason: string) {
    && Field(user) && Field(reason)
    && exists word, sign, zeros, eols ::
         VersionWord(word, sign, zeros) && Eols(eols) && line == word + "\tAUTH\t" + user + "\t" + reason + eols
  }

  lemma AskingDecodes(line: string, word: string, sign: string, zeros: string, eols: string,
                      user: string, reason: string)
    requires Field(user) && Field(reason) && VersionWord(word, sign, zeros) && Eols(eols)
    requires line == word + "\tAUTH\t" + user + "\t" + reason + eols
    ensures DecodeRequest(line) == Accepted(Authenticate(user, reason))
  {
    FieldExactly(user);
    FieldExactly(reason);
    NoTabInField(user);
    NoTabInField(reason);
    LastIsNoEol(reason);
    WordIsVersionOne(word, sign, zeros);
    var body := word + "\tAUTH\t" + user + "\t" + reason;
    assert body[|body| - 1] == reason[|reason| - 1];
    TrimEolStops(body, eols);
    hide VersionOne, VersionWord, Split, TrimEol, Field, ValidField, Eols;
    FourWords(word, user, reason);
    assert body != "" && line == body + eols;
  }

  lemma FourWords(word: string, user: string, reason: string)
    requires '\t' !in word && '\t' !in user && '\t' !in reason
    ensures Split(word + "\tAUTH\t" + user + "\t" + reason, '\t') == [word, "AUTH", user, reason]
  {
    hide Split;
    var rest := user + ['\t'] + reason;
    assert word + "\tAUTH\t" + user + "\t" + reason == word + ['\t'] + ("AUTH" + ['\t'] + rest);
    assert '\t' !in "AUTH";
    SplitTwo(word, "AUTH", rest);
    SplitJoin(user, reason, '\t');
    SplitWithout(user, '\t');
    SplitWithout(reason, '\t');
    assert [word, "AUTH"] + ([user] + [reason]) == [word, "AUTH", user, reason];
  }

  lemma LastIsNoEol(s: string)
    requires ValidField(s)
    ensures s != "" && !EndsInEol(s)
  {
  }

  /** Which lines ask for an authentication, exactly. */
  lemma AuthenticateExactly(line: string, user: string, reason: string)
    ensures DecodeRequest(line) == Accepted(Authenticate(user, reason)) <==> AsksFor(line, user, reason)
  {
    if DecodeRequest(line) == Accepted(Authenticate(user, reason)) {
      AcceptedAsks(line, user, reason);
    }
    if AsksFor(line, user, reason) {
      var word, sign, zeros, eols :|
        VersionWord(word, sign, zeros) && Eols(eols) && line == word + "\tAUTH\t" + user + "\t" + reason + eols;
      AskingDecodes(line, word, sign, zeros, eols, user, reason);
    }
  }

  lemma AcceptedAsks(line: string, user: string, reason: string)
    requires DecodeRequest(line) == Accepted(Authenticate(user, reason))
    ensures AsksFor(line, user, reason)
  {
    hide VersionOne, Split, TrimEol, ValidField, Eols, Join, VersionWord, Field;
    var body := TrimEol(line);
    var parts := Split(body, '\t');
    TrimEolDrops(line);
    JoinOfSplit(body, '\t');
    FourParts(parts);
    VersionOneIsWord(parts[0]);
    var sign, zeros :| VersionWord(parts[0], sign, zeros);
    FieldExactly(user);
    FieldExactly(reason);
    assert body == parts[0] + "\tAUTH\t" + user + "\t" + reason;
    assert line == parts[0] + "\tAUTH\t" + user + "\t" + reason + line[|body|..];
  }

  /** The line is a version and one bare word. */
  ghost predicate Bare(line: string, command: string) {
    exists word, sign, zeros, eols ::
      VersionWord(word, sign, zeros) && Eols(eols) && line == word + "\t" + command + eols
  }

  lemma CommandFacts(command: string)
    requires command == "PING" || command == "STATUS"
    ensures '\t' !in command && !EndsInEol(command) && command != "AUTH" && "PING" != "STATUS"
  {
    assert command[0] != "AUTH"[0] && "PING"[0] != "STATUS"[0];
  }

  lemma BareDecodes(line: string, word: string, sign: string, zeros: string, eols: string, command: string)
    requires command == "PING" || command == "STATUS"
    requires VersionWord(word, sign, zeros) && Eols(eols) && line == word + "\t" + command + eols
    ensures DecodeRequest(line) == Accepted(if command == "PING" then Ping else Status)
  {
    WordIsVersionOne(word, sign, zeros);
    CommandFacts(command);
    var body := word + "\t" + command;
    assert command != "" && body[|body| - 1] == command[|command| - 1];
    TrimEolStops(body, eols);
    hide VersionOne, VersionWord, Split, TrimEol, ValidField, Eols;
    assert body == word + ['\t'] + command;
    SplitJoin(word, command, '\t');
    SplitWithout(word, '\t');
    SplitWithout(command, '\t');
    assert Split(body, '\t') == [word] + [command] == [word, command];
    assert body != "" && line == body + eols;
  }

  lemma AcceptedIsBare(line: string, command: string)
    requires command == "PING" || command == "STATUS"
    requires DecodeRequest(line) == Accepted(if command == "PING" then Ping else Status)
    ensures Bare(line, command)
  {
    hide VersionOne, Split, TrimEol, ValidField, Eols, Join, VersionWord;
    assert "PING"[0] != "STATUS"[0];
    var body := TrimEol(line);
    var parts := Split(body, '\t');
    TrimEolDrops(line);
    JoinOfSplit(body, '\t');
    TwoParts(parts);
    VersionOneIsWord(parts[0]);
    var sign, zeros :| VersionWord(parts[0], sign, zeros);
    assert line == parts[0] + "\t" + command + line[|body|..];
  }

  /** Which lines are pings and which ask for the status, exactly. */
  lemma BareExactly(line: string)
    ensures DecodeRequest(line) == Accepted(Ping) <==> Bare(line, "PING")
    ensures DecodeRequest(line) == Accepted(Status) <==> Bare(line, "STATUS")
  {
    hide DecodeRequest, VersionWord, Eols;
    assert "PING"[0] != "STATUS"[0];
    forall word, sign, zeros, eols, command | (command == "PING" || command == "STATUS")
        && VersionWord(word, sign, zeros) && Eols(eols) && line == word + "\t" + command + eols
      ensures DecodeRequest(line) == Accepted(if command == "PING" then Ping else Status)
    {
      BareDecodes(line, word, sign, zeros, eols, command);
    }
    if DecodeRequest(line) == Accepted(Ping) {
      AcceptedIsBare(line, "PING");
    }
    if DecodeRequest(line) == Accepted(Status) {
      AcceptedIsBare(line, "STATUS");
    }
  }

  // ---------------------------------------------------------------- rejections

  /** The first word of a line and what stands behind it. */
  predicate FirstWord(body: string, word: string, rest: string) {
    body == word + rest && '\t' !in word && (rest == "" || rest[0] == '\t')
  }

  lemma SplitsAtWord(body: string, word: string, rest: string)
    requires FirstWord(body, word, rest)
    ensures Split(body, '\t') == if rest == "" then [word] else [word] + Split(rest[1..], '\t')
  {
    hide Split;
    if rest == "" {
      assert body == word;
      SplitWithout(body, '\t');
    } else {
      assert body[|word|] == '\t' && body[..|word|] == word && body[|word| + 1..] == rest[1..];
      SplitFirst(body, '\t', |word|);
    }
  }

  /** The second word is `AUTH`. */
  predicate SaysAuth(rest: string) {
    rest == "\tAUTH" || (|rest| >= 6 && rest[..6] == "\tAUTH\t")
  }

  lemma FirstPart(s: string)
    ensures Split(s, '\t')[0] == s[..Find(s, '\t')]
  {
  }

  /** A text begins with the word `AUTH` exactly if it is that word or goes on with a tab. */
  lemma AuthFirst(s: string)
    ensures s[..Find(s, '\t')] == "AUTH" <==> s == "AUTH" || (|s| >= 5 && s[..5] == "AUTH" + "\t")
  {
    var i := Find(s, '\t');
    if s == "AUTH" {
      FindUnique(s, '\t', 4);
      assert s[..4] == s;
    } else if |s| >= 5 && s[..5] == "AUTH" + "\t" {
      assert s[4] == s[..5][4] && forall j :: 0 <= j < 4 ==> s[j] == s[..5][j];
      FindUnique(s, '\t', 4);
      assert s[..4] == s[..5][..4];
    }
    if s[..i] == "AUTH" {
      assert i == 4;
      assert i < |s| ==> s[..5] == s[..4] + [s[4]];
      assert i == |s| ==> s == s[..i];
    }
  }

  lemma SaysAuthExactly(rest: string)
    requires rest != "" && rest[0] == '\t'
    ensures SaysAuth(rest) <==> Split(rest[1..], '\t')[0] == "AUTH"
  {
    hide Split, Find;
    var s := rest[1..];
    FirstPart(s);
    AuthFirst(s);
    assert rest == "\t" + s;
    assert "\tAUTH" == "\t" + "AUTH" && "\tAUTH\t" == "\t" + ("AUTH" + "\t");
    assert rest == "\tAUTH" <==> s == "AUTH" by {
      assert ("\t" + "AUTH")[1..] == "AUTH";
    }
    if |s| >= 5 {
      assert rest[..6] == "\t" + s[..5];
      assert ("\t" + ("AUTH" + "\t"))[1..] == "AUTH" + "\t" && ("\t" + s[..5])[1..] == s[..5];
    }
  }

  /** Why a line is rejected, exactly: it has nothing but line ends, its first word is no version of
      the protocol, it asks to authenticate and is not of that form, or it is nothing else either. */
  lemma RejectionsExactly(body: string, eols: string, word: string, rest: string)
    requires Eols(eols) && !EndsInEol(body) && FirstWord(body, word, rest)
    ensures var line, version := body + eols, exists sign, zeros :: VersionWord(word, sign, zeros);
            && (DecodeRequest(line) == Rejected(Empty) <==> body == "")
            && (DecodeRequest(line) == Rejected(UnsupportedVersion) <==> body != "" && !version)
            && (DecodeRequest(line) == Rejected(InvalidField) <==>
                  body != "" && version && SaysAuth(rest) && forall user, reason :: !AsksFor(line, user, reason))
            && (DecodeRequest(line) == Rejected(InvalidCommand) <==>
                  body != "" && version && !SaysAuth(rest) && !Bare(line, "PING") && !Bare(line, "STATUS"))
  {
    var line := body + eols;
    hide VersionOne, VersionWord, Split, TrimEol, ValidField, Eols, SaysAuth, AsksFor, Bare;
    TrimEolStops(body, eols);
    SplitsAtWord(body, word, rest);
    BareExactly(line);
    if VersionOne(word) {
      VersionOneIsWord(word);
    }
    forall sign, zeros | VersionWord(word, sign, zeros) ensures VersionOne(word) {
      WordIsVersionOne(word, sign, zeros);
    }
    if rest != "" {
      SaysAuthExactly(rest);
    } else {
      assert !SaysAuth(rest) by {
        NothingSaysNothing();
      }
    }
    forall user, reason
      ensures DecodeRequest(line) == Accepted(Authenticate(user, reason)) <==> AsksFor(line, user, reason)
    {
      AuthenticateExactly(line, user, reason);
    }
  }

  lemma NothingSaysNothing()
    ensures !SaysAuth("")
  {
  }

  // ---------------------------------------------------------------- responses

  lemma PlainStays(s: string)
    requires Plain(s) && |s| <= 256
    ensures Sanitize(s) == s
  {
  }

  /** The texts of the responses to messages that need no cleaning. */
  lemma ResponseTexts(msg: string, ir: nat, tpm: bool)
    requires Plain(msg) && |msg| <= 256
    ensures EncodeResponse(Response.Ok(msg)) == "OK\t" + msg + "\n"
    ensures EncodeResponse(Response.Error(msg)) == "ERR\t" + msg + "\n"
    ensures EncodeResponse(Pong) == "PONG\n"
    ensures exists count :: DecimalShape(count, ir)
              && EncodeResponse(Report(DaemonStatus(msg, ir, tpm)))
                 == "STATUS\tbackend=" + msg + "\tir=" + count + (if tpm then "\ttpm=1\n" else "\ttpm=0\n")
  {
    PlainStays(msg);
    DecimalHasShape(ir);
    hide Sanitize, Decimal, DecimalShape;
    ReportText(msg, Decimal(ir), tpm);
  }

  lemma ReportText(msg: string, count: string, tpm: bool)
    ensures "STATUS\t" + ("backend=" + msg) + "\t" + ("ir=" + count) + "\t" + ("tpm=" + if tpm then "1" else "0") + "\n"
         == "STATUS\tbackend=" + msg + "\tir=" + count + (if tpm then "\ttpm=1\n" else "\ttpm=0\n")
  {
    assert "STATUS\tbackend=" == "STATUS\t" + "backend=" && "\tir=" == "\t" + "ir=";
    assert "\ttpm=1\n" == "\t" + ("tpm=" + "1") + "\n" && "\ttpm=0\n" == "\t" + ("tpm=" + "0") + "\n";
  }

  /** Decimal digits without leading zeros. */
  ghost predicate DecimalShape(s: string, n: nat) {
    && s != "" && AllDigits(s) && DecimalValue(s) == n
    && (|s| > 1 ==> s[0] != '0')
  }

  lemma {:induction false} DecimalHasShape(n: nat)
    ensures DecimalShape(Decimal(n), n)
  {
    if n >= 10 {
      DecimalHasShape(n / 10);
      assert n / 10 > 0;
      var front := Decimal(n / 10);
      assert |front| == 1 ==> front[..0] == "" && front[0] != '0';
    }
  }

  /** What a message becomes: control characters are blanks, and 256 characters are kept. */
  lemma SanitizeExactly(s: string, r: string)
    ensures r == Sanitize(s) <==>
      && |r| <= 256 && |r| <= |s| && (|r| == |s| || |r| == 256)
      && forall i :: 0 <= i < |r| ==>
           r[i] == if s[i] <= '\U{1f}' || '\U{7f}' <= s[i] <= '\U{9f}' then ' ' else s[i]
  {
  }
}
