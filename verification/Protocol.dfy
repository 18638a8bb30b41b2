// The V1 line protocol between the PAM module and the daemon.
module Protocol {
  import opened Text

  datatype Request = Authenticate(user: string, reason: string) | Status | Ping

  datatype DaemonStatus = DaemonStatus(backend: string, strictIrDevices: nat, tpmPresent: bool)

  datatype Response = Ok(msg: string) | Error(msg: string) | Report(status: DaemonStatus) | Pong

  datatype ProtocolError = Empty | InvalidCommand | InvalidField | UnsupportedVersion

  function ErrorText(e: ProtocolError): string {
    match e
    case Empty => "empty request"
    case InvalidCommand => "invalid command"
    case InvalidField => "invalid field"
    case UnsupportedVersion => "unsupported protocol version"
  }

  datatype Decoded = Accepted(request: Request) | Rejected(error: ProtocolError)

  const MAX_REQUEST_BYTES := 1024

  predicate ValidField(s: string) {
    s != "" && Utf8Len(s) <= 256 && forall i :: 0 <= i < |s| ==> !IsControl(s[i])
  }

  predicate ValidRequest(r: Request) {
    r.Authenticate? ==> ValidField(r.user) && ValidField(r.reason)
  }

  function EncodeRequest(r: Request): string {
    match r
    case Authenticate(user, reason) => "V1\tAUTH\t" + user + "\t" + reason + "\n"
    case Status => "V1\tSTATUS\n"
    case Ping => "V1\tPING\n"
  }

  // ---------------------------------------------------------------- decoding

  /** `trim_end_matches(['\r', '\n'])`. */
  function TrimEol(s: string): string {
    if s != "" && (s[|s| - 1] == '\r' || s[|s| - 1] == '\n') then TrimEol(s[..|s| - 1]) else s
  }

  /** `str::split` on one character. */
  function Split(s: string, c: char): (parts: seq<string>)
    ensures |parts| >= 1
  {
    var i := Find(s, c);
    if i == |s| then [s] else [s[..i]] + Split(s[i + 1..], c)
  }

  function DecimalValue(digits: string): nat
    requires AllDigits(digits)
  {
    if digits == "" then 0
    else 10 * DecimalValue(digits[..|digits| - 1]) + DigitValue(digits[|digits| - 1])
  }

  function DigitValue(c: char): nat
    requires IsDigit(c)
  {
    (c as int) - ('0' as int)
  }

  predicate AllDigits(s: string) {
    forall i :: 0 <= i < |s| ==> IsDigit(s[i])
  }

  /** `str::parse::<u32>`: digits, a leading plus sign allowed, no overflow. */
  function ParseU32(s: string): Option<nat> {
    var digits := if |s| > 1 && s[0] == '+' then s[1..] else s;
    if digits != "" && AllDigits(digits) && DecimalValue(digits) < 0x1_0000_0000
    then Some(DecimalValue(digits)) else None
  }

  predicate VersionOne(word: string) {
    word != "" && word[0] == 'V' && ParseU32(word[1..]) == Some(1)
  }

  function DecodeRequest(line: string): Decoded {
    var body := TrimEol(line);
    var parts := Split(body, '\t');
    if body == "" then Rejected(Empty)
    else if !VersionOne(parts[0]) then Rejected(UnsupportedVersion)
    else if |parts| >= 2 && parts[1] == "AUTH" then
      if |parts| == 4 && ValidField(parts[2]) && ValidField(parts[3])
      then Accepted(Authenticate(parts[2], parts[3])) else Rejected(InvalidField)
    else if |parts| == 2 && parts[1] == "STATUS" then Accepted(Status)
    else if |parts| == 2 && parts[1] == "PING" then Accepted(Ping)
    else Rejected(InvalidCommand)
  }

  // ---------------------------------------------------------------- splitting and trimming

  lemma {:induction false} SplitWithout(s: string, c: char)
    ensures |Split(s, c)| == 1 <==> c !in s
    ensures c !in s ==> Split(s, c) == [s]
  {
  }

  lemma SplitFirst(s: string, c: char, i: nat)
    requires i < |s| && s[i] == c && forall j :: 0 <= j < i ==> s[j] != c
    ensures Split(s, c) == [s[..i]] + Split(s[i + 1..], c)
  {
  }

  lemma {:induction false} SplitJoin(a: string, b: string, c: char)
    ensures Split(a + [c] + b, c) == Split(a, c) + Split(b, c)
  {
    hide Split, Find;
    var s := a + [c] + b;
    var i := Find(a, c);
    assert s[i] == c && s[..i] == a[..i] && forall j :: 0 <= j < i ==> s[j] == a[j];
    SplitFirst(s, c, i);
    if i < |a| {
      var t := a[i + 1..];
      SplitFirst(a, c, i);
      assert s[i + 1..] == t + [c] + b;
      SplitJoin(t, b, c);
      assert [a[..i]] + (Split(t, c) + Split(b, c)) == ([a[..i]] + Split(t, c)) + Split(b, c);
    } else {
      SplitWithout(a, c);
      assert s[i + 1..] == b && a[..i] == a;
    }
  }

  /** A tab stops the trimming of line ends. */
  lemma {:induction false} TrimEolAfterTab(a: string, b: string)
    ensures TrimEol(a + "\t" + b) == a + "\t" + TrimEol(b)
  {
    var s := a + "\t" + b;
    if b == "" {
      assert s[|s| - 1] == '\t';
    } else if b[|b| - 1] == '\r' || b[|b| - 1] == '\n' {
      assert s[..|s| - 1] == a + "\t" + b[..|b| - 1];
      TrimEolAfterTab(a, b[..|b| - 1]);
    } else {
      assert s[|s| - 1] == b[|b| - 1];
    }
  }

  lemma TrimEolOfField(s: string)
    requires ValidField(s)
    ensures TrimEol(s + "\n") == s
  {
  }

  lemma NoTabInField(s: string)
    requires ValidField(s)
    ensures '\t' !in s && '\n' !in s
  {
  }

  lemma VersionFacts()
    ensures VersionOne("V1") && '\t' !in "V1"
  {
    assert "V1"[1..] == "1";
    assert "1"[..0] == "" && DecimalValue("1") == 1;
  }

  lemma SplitTwo(a: string, b: string, rest: string)
    requires '\t' !in a && '\t' !in b
    ensures Split(a + ['\t'] + (b + ['\t'] + rest), '\t') == [a, b] + Split(rest, '\t')
  {
    hide Split;
    SplitJoin(a, b + ['\t'] + rest, '\t');
    SplitJoin(b, rest, '\t');
    SplitWithout(a, '\t');
    SplitWithout(b, '\t');
    assert [a] + ([b] + Split(rest, '\t')) == [a, b] + Split(rest, '\t');
  }

  /** What a line that starts like an authentication request is split into. */
  lemma SplitAuth(user: string, tail: string)
    ensures TrimEol("V1\tAUTH\t" + user + "\t" + tail) == "V1\tAUTH\t" + user + "\t" + TrimEol(tail)
    ensures Split("V1\tAUTH\t" + user + "\t" + tail, '\t')
         == ["V1", "AUTH"] + (Split(user, '\t') + Split(tail, '\t'))
  {
    hide Split;
    TrimEolAfterTab("V1\tAUTH\t" + user, tail);
    var rest := user + ['\t'] + tail;
    SplitTwo("V1", "AUTH", rest);
    SplitJoin(user, tail, '\t');
    assert "V1\tAUTH\t" + user + "\t" + tail == "V1" + ['\t'] + ("AUTH" + ['\t'] + rest);
  }

  /** Decoding a line that starts like an authentication request. */
  lemma DecodeAuth(user: string, tail: string)
    ensures var t := TrimEol(tail);
            DecodeRequest("V1\tAUTH\t" + user + "\t" + tail)
            == if '\t' !in user && '\t' !in t && ValidField(user) && ValidField(t)
               then Accepted(Authenticate(user, t)) else Rejected(InvalidField)
  {
    var t := TrimEol(tail);
    SplitAuth(user, tail);
    SplitAuth(user, t);
    VersionFacts();
    SplitWithout(user, '\t');
    SplitWithout(t, '\t');
    hide VersionOne, ValidField, TrimEol;
    var parts := ["V1", "AUTH"] + (Split(user, '\t') + Split(t, '\t'));
    assert parts[0] == "V1" && parts[1] == "AUTH";
    assert ("V1\tAUTH\t" + user + "\t" + t)[0] == 'V';
  }

  // ---------------------------------------------------------------- the codec laws

  /** decode(encode(r)) == r exactly for the requests whose fields are valid. */
  lemma RoundTrip(r: Request)
    ensures DecodeRequest(EncodeRequest(r)) == Accepted(r) <==> ValidRequest(r)
  {
    match r {
      case Authenticate(user, reason) =>
        hide ValidField, TrimEol, Split;
        DecodeAuth(user, reason + "\n");
        assert "V1\tAUTH\t" + user + "\t" + (reason + "\n") == EncodeRequest(r);
        if ValidField(user) && ValidField(reason) {
          NoTabInField(user);
          NoTabInField(reason);
          TrimEolOfField(reason);
        }
      case Status => DecodeBare("STATUS");
      case Ping => DecodeBare("PING");
    }
  }

  lemma BareParts(word: string)
    requires '\t' !in word && TrimEol(word + "\n") == word
    ensures TrimEol("V1\t" + word + "\n") == "V1\t" + word
    ensures Split("V1\t" + word, '\t') == ["V1", word]
  {
    hide TrimEol, Split;
    TrimEolAfterTab("V1", word + "\n");
    assert "V1\t" + word + "\n" == "V1" + "\t" + (word + "\n");
    SplitJoin("V1", word, '\t');
    SplitWithout("V1", '\t');
    SplitWithout(word, '\t');
    assert "V1\t" + word == "V1" + ['\t'] + word;
    assert ["V1"] + [word] == ["V1", word];
  }

  lemma WordsStayTrimmed()
    ensures TrimEol("STATUS" + "\n") == "STATUS" && '\t' !in "STATUS"
    ensures TrimEol("PING" + "\n") == "PING" && '\t' !in "PING"
  {
  }

  lemma DecodeBare(word: string)
    requires word == "STATUS" || word == "PING"
    ensures DecodeRequest("V1\t" + word + "\n") == Accepted(if word == "PING" then Ping else Status)
    ensures "V1\tSTATUS\n" == "V1\t" + "STATUS" + "\n" && "V1\tPING\n" == "V1\t" + "PING" + "\n"
  {
    WordsStayTrimmed();
    hide VersionOne, TrimEol, Split, ValidField;
    BareParts(word);
    VersionFacts();
    assert word != "AUTH" by {
      assert word[0] != "AUTH"[0];
    }
    assert "PING"[0] != "STATUS"[0];
  }

  /** Every accepted line, however spelled, stands for a request that survives the wire. */
  lemma AcceptedIsCanonical(line: string)
    requires DecodeRequest(line).Accepted?
    ensures ValidRequest(DecodeRequest(line).request)
    ensures DecodeRequest(EncodeRequest(DecodeRequest(line).request)) == DecodeRequest(line)
  {
    hide ValidField, TrimEol, Split;
    RoundTrip(DecodeRequest(line).request);
  }

  /** `V01` is such another spelling. */
  lemma OtherSpelling()
    ensures VersionOne("V01") && VersionOne("V+1") && !VersionOne("V2") && !VersionOne("V")
  {
    assert "V01"[1..] == "01" && "01"[..1] == "0" && "0"[..0] == "";
    assert DecimalValue("0") == 0 && DecimalValue("01") == 1;
    assert "V+1"[1..] == "+1" && "+1"[1..] == "1" && "1"[..0] == "" && DecimalValue("1") == 1;
    assert "V2"[1..] == "2" && "2"[..0] == "" && DecimalValue("2") == 2;
    assert "V"[1..] == "";
  }

  /** A valid request always fits the daemon's line limit. */
  lemma EncodedLength(r: Request)
    requires ValidRequest(r)
    ensures Utf8Len(EncodeRequest(r)) <= 522 < MAX_REQUEST_BYTES
  {
    match r {
      case Authenticate(user, reason) =>
        hide Utf8Len;
        var head := "V1\tAUTH\t";
        Utf8LenAscii(head);
        Utf8LenAscii("\t");
        Utf8LenAscii("\n");
        Utf8LenConcat(head, user);
        Utf8LenConcat(head + user, "\t");
        Utf8LenConcat(head + user + "\t", reason);
        Utf8LenConcat(head + user + "\t" + reason, "\n");
      case Status => Utf8LenAscii(EncodeRequest(r));
      case Ping => Utf8LenAscii(EncodeRequest(r));
    }
  }

  // ---------------------------------------------------------------- what the daemon reads

  /** The daemon reads up to the first newline of what was sent, or stops short of it. */
  ghost predicate Receives(sent: string, line: string) {
    && |line| <= |sent| && line == sent[..|line|]
    && ('\n' in line ==> line == sent[..Find(sent, '\n') + 1])
  }

  predicate Complete(line: string) {
    line != "" && line[|line| - 1] == '\n'
  }

  /** A complete line read from text whose head has no newline goes past that head. */
  lemma LineGoesPast(head: string, tail: string, line: string)
    requires Receives(head + tail, line) && Complete(line) && '\n' !in head && '\n' in tail
    ensures line == head + tail[..Find(tail, '\n') + 1]
  {
    var k := Find(tail, '\n');
    FindUnique(head + tail, '\n', |head| + k);
    assert line[|line| - 1] in line;
  }

  /** The request the daemon acts on is for the user the client named if and only if that name has
      no newline; the reason never changes the user. */
  lemma UserPreserved(user: string, reason: string, line: string)
    requires Receives(EncodeRequest(Authenticate(user, reason)), line) && Complete(line)
    requires DecodeRequest(line).Accepted? && DecodeRequest(line).request.Authenticate?
    ensures DecodeRequest(line).request.user == user <==> '\n' !in user
  {
    hide ValidField, TrimEol, Split, Find, Receives, Complete, DecodeRequest;
    if '\n' in user {
      AcceptedIsCanonical(line);
      NoTabInField(DecodeRequest(line).request.user);
    } else {
      var head, tail := "V1\tAUTH\t" + user + "\t", reason + "\n";
      assert EncodeRequest(Authenticate(user, reason)) == head + tail;
      assert tail[|reason|] == '\n' && '\n' !in "V1\tAUTH\t";
      LineGoesPast(head, tail, line);
      DecodeAuth(user, tail[..Find(tail, '\n') + 1]);
    }
  }

  /** Why the newline matters: the daemon reads only the first line of such a name. */
  lemma NewlineChangesUser(reason: string)
    ensures var sent, line := EncodeRequest(Authenticate("a\tb\nc", reason)), "V1\tAUTH\t" + "a" + "\t" + "b\n";
            Receives(sent, line) && Complete(line) && DecodeRequest(line) == Accepted(Authenticate("a", "b"))
  {
    hide DecodeRequest, ValidField, TrimEol, Split;
    var line := "V1\tAUTH\t" + "a" + "\t" + "b\n";
    var sent := EncodeRequest(Authenticate("a\tb\nc", reason));
    assert sent == line + ("c" + "\t" + reason + "\n") by {
      assert "a\tb\nc" == "a" + "\t" + "b\n" + "c";
    }
    FindUnique(sent, '\n', 11);
    assert line == sent[..12];
    DecodeAuth("a", "b\n");
    ShortFields();
  }

  lemma ShortFields()
    ensures TrimEol("b\n") == "b" && ValidField("a") && ValidField("b") && '\t' !in "a" && '\t' !in "b"
  {
  }

  // ---------------------------------------------------------------- responses

  function SanitizeChar(c: char): char {
    if IsControl(c) then ' ' else c
  }

  /** At most 256 characters, control characters blanked. */
  function Sanitize(s: string): (r: string)
    ensures |r| == if |s| <= 256 then |s| else 256
    ensures forall i :: 0 <= i < |r| ==> r[i] == SanitizeChar(s[i])
  {
    seq(if |s| <= 256 then |s| else 256, i requires 0 <= i < |s| => SanitizeChar(s[i]))
  }

  function Decimal(n: nat): (s: string)
    ensures s != "" && AllDigits(s)
    ensures DecimalValue(s) == n
  {
    var d := ('0' as int + n % 10) as char;
    if n < 10 then assert [d][..0] == []; [d]
    else
      assert (Decimal(n / 10) + [d])[..|Decimal(n / 10)|] == Decimal(n / 10);
      Decimal(n / 10) + [d]
  }

  function EncodeResponse(r: Response): string {
    match r
    case Ok(msg) => "OK\t" + Sanitize(msg) + "\n"
    case Error(msg) => "ERR\t" + Sanitize(msg) + "\n"
    case Pong => "PONG\n"
    case Report(s) =>
      "STATUS\t" + ("backend=" + Sanitize(s.backend)) + "\t" + ("ir=" + Decimal(s.strictIrDevices))
      + "\t" + ("tpm=" + if s.tpmPresent then "1" else "0") + "\n"
  }

  /** The tab separators of a response. */
  function Separators(r: Response): nat {
    match r
    case Ok(_) => 1
    case Error(_) => 1
    case Pong => 0
    case Report(_) => 3
  }

  function Count(s: string, c: char): nat {
    if s == "" then 0 else (if s[0] == c then 1 else 0) + Count(s[1..], c)
  }

  lemma {:induction false} CountConcat(a: string, b: string, c: char)
    ensures Count(a + b, c) == Count(a, c) + Count(b, c)
  {
    if a == "" {
      assert a + b == b;
    } else {
      assert (a + b)[1..] == a[1..] + b;
      CountConcat(a[1..], b, c);
    }
  }

  ghost predicate Plain(s: string) {
    forall i :: 0 <= i < |s| ==> !IsControl(s[i])
  }

  lemma {:induction false} PlainHasNone(s: string, c: char)
    requires Plain(s) && IsControl(c)
    ensures Count(s, c) == 0
  {
    if s != "" {
      PlainHasNone(s[1..], c);
    }
  }

  lemma SanitizeIsPlain(s: string)
    ensures Plain(Sanitize(s))
  {
  }

  /** `head`, a tab, `body`: one more separator and no other control character. */
  lemma FieldCount(head: string, body: string, c: char)
    requires Plain(body) && IsControl(c)
    ensures Count(head + "\t" + body, c) == Count(head, c) + if c == '\t' then 1 else 0
  {
    CountConcat(head + "\t", body, c);
    CountConcat(head, "\t", c);
    PlainHasNone(body, c);
    assert "\t"[1..] == "";
  }

  /** Framing: a response ends in its only newline, and its only other control characters are its
      own tab separators, whatever the messages in it contain. */
  lemma ResponseFraming(r: Response, c: char)
    requires IsControl(c)
    ensures Complete(EncodeResponse(r))
    ensures Count(EncodeResponse(r), c)
         == if c == '\n' then 1 else if c == '\t' then Separators(r) else 0
  {
    hide Count, Sanitize, Decimal, IsControl;
    var body := match r
      case Ok(msg) => "OK" + "\t" + Sanitize(msg)
      case Error(msg) => "ERR" + "\t" + Sanitize(msg)
      case Pong => "PONG"
      case Report(s) =>
        "STATUS" + "\t" + ("backend=" + Sanitize(s.backend)) + "\t" + ("ir=" + Decimal(s.strictIrDevices))
        + "\t" + ("tpm=" + if s.tpmPresent then "1" else "0");
    assert EncodeResponse(r) == body + "\n" by {
      assert "OK\t" == "OK" + "\t" && "ERR\t" == "ERR" + "\t" && "STATUS\t" == "STATUS" + "\t";
    }
    CountConcat(body, "\n", c);
    CountNewline(c);
    WordsArePlain();
    match r {
      case Ok(msg) =>
        SanitizeIsPlain(msg);
        FieldCount("OK", Sanitize(msg), c);
        PlainHasNone("OK", c);
      case Error(msg) =>
        SanitizeIsPlain(msg);
        FieldCount("ERR", Sanitize(msg), c);
        PlainHasNone("ERR", c);
      case Pong => PlainHasNone("PONG", c);
      case Report(s) =>
        SanitizeIsPlain(s.backend);
        DecimalIsPlain(s.strictIrDevices);
        var f1, f2, f3 := "backend=" + Sanitize(s.backend), "ir=" + Decimal(s.strictIrDevices),
                          "tpm=" + if s.tpmPresent then "1" else "0";
        PlainConcat("backend=", Sanitize(s.backend));
        PlainConcat("ir=", Decimal(s.strictIrDevices));
        PlainConcat("tpm=", if s.tpmPresent then "1" else "0");
        PlainHasNone("STATUS", c);
        FieldCount("STATUS", f1, c);
        FieldCount("STATUS" + "\t" + f1, f2, c);
        FieldCount("STATUS" + "\t" + f1 + "\t" + f2, f3, c);
    }
  }

  lemma PlainConcat(a: string, b: string)
    requires Plain(a) && Plain(b)
    ensures Plain(a + b)
  {
  }

  lemma DecimalIsPlain(n: nat)
    ensures Plain(Decimal(n))
  {
  }

  lemma CountNewline(c: char)
    ensures Count("\n", c) == if c == '\n' then 1 else 0
  {
  }

  lemma WordsArePlain()
    ensures Plain("OK") && Plain("ERR") && Plain("PONG") && Plain("STATUS")
    ensures Plain("backend=") && Plain("ir=") && Plain("tpm=") && Plain("1") && Plain("0")
  {
  }

  /** The client's whole decision. */
  predicate Approves(line: string) {
    StartsWith(line, "OK\t")
  }

  /** Whatever part of a response the client gets to see, it takes only an Ok for an approval; and
      it takes the whole line for one exactly when the response was Ok. */
  lemma OnlyOkApproves(r: Response, seen: string)
    requires |seen| <= |EncodeResponse(r)| && seen == EncodeResponse(r)[..|seen|]
    ensures Approves(seen) ==> r.Ok?
    ensures Approves(EncodeResponse(r)) <==> r.Ok?
  {
    var e := EncodeResponse(r);
    assert r.Ok? ==> e[..3] == "OK\t";
    assert !r.Ok? ==> e[0] != 'O';
    assert Approves(seen) ==> seen[..3][0] == seen[0] == e[0];
    assert Approves(e) ==> e[..3][0] == e[0];
  }
}
