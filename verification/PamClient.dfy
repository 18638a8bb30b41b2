// The PAM module: what it asks the daemon, how it decides, and what a success of it stands for.
module PamClient {
  import opened Text
  import opened Protocol
  import opened Backend
  import opened Daemon
  import opened DaemonEvidence
  import opened DaemonRates
  import opened DaemonSafety

  const PAM_SUCCESS := 0
  const PAM_SERVICE_ERR := 3
  const PAM_AUTH_ERR := 7

  /** A module argument: none when it is null or not UTF-8. */
  type Arg = Option<string>

  const REASON := "reason="

  predicate GivesReason(arg: Arg) {
    && arg.Some? && StartsWith(arg.value, REASON)
    && arg.value[|REASON|..] != "" && Utf8Len(arg.value[|REASON|..]) <= 128
  }

  /** The reason sent is the one of the first argument that gives one. */
  ghost predicate ReasonFrom(args: seq<Arg>, reason: Option<string>) {
    match reason
    case None => forall i :: 0 <= i < |args| ==> !GivesReason(args[i])
    case Some(text) =>
      exists i :: 0 <= i < |args| && GivesReason(args[i]) && args[i] == Some(REASON + text)
                  && forall j :: 0 <= j < i ==> !GivesReason(args[j])
  }

  /** `reason=` and 1 to 128 bytes. */
  lemma GivesReasonExactly(arg: Arg)
    ensures GivesReason(arg) <==> exists text :: arg == Some("reason=" + text) && 1 <= Utf8Len(text) <= 128
  {
    if GivesReason(arg) {
      var text := arg.value[|REASON|..];
      assert arg.value == "reason=" + text;
    }
    forall text | arg == Some("reason=" + text) ensures arg.value[|REASON|..] == text && StartsWith(arg.value, REASON) {
    }
    forall text ensures Utf8Len(text) >= 1 <==> text != "" {
    }
  }

  method ParseReason(args: seq<Arg>) returns (reason: Option<string>)
    ensures ReasonFrom(args, reason)
  {
    hide Utf8Len;
    for i := 0 to |args|
      invariant forall j :: 0 <= j < i ==> !GivesReason(args[j])
    {
      if args[i].Some? && StartsWith(args[i].value, REASON) {
        var text := args[i].value[|REASON|..];
        if text != "" && Utf8Len(text) <= 128 {
          assert args[i].value == REASON + text;
          return Some(text);
        }
      }
    }
    return None;
  }

  /** What one exchange with the daemon gives: an I/O error, or the line read before the newline or
      the end of the stream. */
  datatype Exchange = Broken | Heard(line: string)

  /** What the PAM library hands over. */
  datatype Caller = NoHandle | NoUser | UserNotUtf8 | User(name: string)

  /** The reason that goes out with the request. */
  function Sent(reason: Option<string>): string {
    if reason.Some? then reason.value else "pam"
  }

  /** The caller is a user whose request, with the first acceptable reason or `pam`, is heard to be
      approved. `daemon` is the exchange a request for a user and a reason leads to. */
  ghost predicate Succeeds(caller: Caller, args: seq<Arg>, daemon: (string, string) -> Exchange) {
    caller.User? && exists reason ::
      && ReasonFrom(args, reason)
      && var x := daemon(caller.name, Sent(reason)); x.Heard? && Approves(x.line)
  }

  /** The same with the request that is sent written out. */
  lemma SucceedsExactly(caller: Caller, args: seq<Arg>, daemon: (string, string) -> Exchange)
    ensures Succeeds(caller, args, daemon) <==>
      && caller.User?
      && ((ReasonFrom(args, None) && HeardOk(daemon(caller.name, "pam")))
          || exists text :: ReasonFrom(args, Some(text)) && HeardOk(daemon(caller.name, text)))
  {
    hide ReasonFrom, HeardOk;
    forall x: Exchange ensures HeardOk(x) <==> x.Heard? && Approves(x.line) {
      HeardOkExactly(x);
    }
    if caller.User? {
      forall text ensures Sent(Some(text)) == text {
      }
    }
    hide Approves;
  }

  /** A line that begins with `OK` and a tab. */
  predicate HeardOk(x: Exchange) {
    x.Heard? && |x.line| >= 3 && x.line[0] == 'O' && x.line[1] == 'K' && x.line[2] == '\t'
  }

  lemma HeardOkExactly(x: Exchange)
    ensures HeardOk(x) <==> x.Heard? && Approves(x.line)
  {
    if x.Heard? && |x.line| >= 3 {
      assert x.line[..3] == [x.line[0], x.line[1], x.line[2]];
    }
  }

  /** `authenticate_inner`. */
  method AuthenticateInner(caller: Caller, args: seq<Arg>, daemon: (string, string) -> Exchange) returns (code: nat)
    ensures code == 0 <==> Succeeds(caller, args, daemon)
    ensures code == 3 <==> caller.NoHandle?
    ensures code == 0 || code == 3 || code == 7
  {
    hide ReasonFrom, Approves;
    if caller.NoHandle? {
      return PAM_SERVICE_ERR;
    }
    if !caller.User? {
      return PAM_AUTH_ERR;
    }
    var reason := ParseReason(args);
    ReasonIsUnique(args, reason);
    var x := daemon(caller.name, Sent(reason));
    match x {
      case Broken => return PAM_AUTH_ERR;
      case Heard(line) => return if Approves(line) then PAM_SUCCESS else PAM_AUTH_ERR;
    }
  }

  lemma ReasonIsUnique(args: seq<Arg>, a: Option<string>)
    requires ReasonFrom(args, a)
    ensures forall b :: ReasonFrom(args, b) ==> a == b
  {
  }

  /** The request of the module is the one the daemon decodes exactly when the user name is a valid
      field and the reason has no control characters: lengths of reasons are never the problem. */
  lemma RequestArrives(args: seq<Arg>, reason: Option<string>, user: string)
    requires ReasonFrom(args, reason)
    ensures var r := Authenticate(user, Sent(reason));
            DecodeRequest(EncodeRequest(r)) == Accepted(r) <==> ValidField(user) && Plain(r.reason)
  {
    var text := Sent(reason);
    assert text != "" && Utf8Len(text) <= 256 by {
      if reason.Some? {
        var i :| 0 <= i < |args| && GivesReason(args[i]) && args[i] == Some(REASON + text);
        assert (REASON + text)[|REASON|..] == text;
      } else {
        Utf8LenAscii("pam");
      }
    }
    hide Utf8Len, DecodeRequest, EncodeRequest;
    RoundTrip(Authenticate(user, text));
  }

  // ---------------------------------------------------------------- end to end

  /** The client of connection `id` asked for `user`: the daemon got the beginning of what was sent,
      and the client got the beginning of what was answered on this connection, if anything. */
  ghost predicate Talks(s: State, id: nat, user: string, reason: string, heard: string) {
    && id < |s.conns|
    && (s.conns[id].line.Some? ==> Receives(EncodeRequest(Authenticate(user, reason)), s.conns[id].line.value))
    && (heard == "" || exists k: nat :: Told(s, id, k, heard))
  }

  ghost predicate Told(s: State, id: nat, k: nat, heard: string) {
    && k < |s.log| && s.log[k].Answered? && s.log[k].id == id
    && |heard| <= |EncodeResponse(s.log[k].response)| && heard == EncodeResponse(s.log[k].response)[..|heard|]
  }

  /** The approval that a success of connection `id` stands on. */
  ghost predicate StandsOn(s: State, id: nat, a: nat) {
    exists k: nat :: a < k < |s.log| && s.log[k].Answered? && s.log[k].id == id && s.log[k].approval == Some(a)
  }

  /** End-to-end safety over all interleavings. When the module lets a user in, the same connection
      passed the user lookup, the peer-uid rule and the limiter, and then, under one hold of the
      camera lock, the strict-camera check and the backend; and the user who was checked is the user
      who is let in, if and only if that name has no newline. */
  lemma SuccessIsEarned(run: seq<Label>, id: nat, user: string, reason: string, heard: string) returns (a: nat)
    requires Exec(run).Some? && Talks(Exec(run).value, id, user, reason, heard) && Approves(heard)
    ensures var s := Exec(run).value;
            && StandsOn(s, id, a) && Justified(s, a, id)
            && (s.log[a].user == user <==> '\n' !in user)
  {
    hide Exec, EncodeRequest, EncodeResponse, DecodeRequest, Receives, Complete, TenureAt, PolicyAt, AdmittedAt,
         Decided, Sleeps, Approvable;
    var s := Exec(run).value;
    var k: nat :| Told(s, id, k, heard);
    OnlyOkApproves(s.log[k].response, heard);
    OkIsEarned(run, k);
    a := s.log[k].approval.value;
    assert Asked(s.conns[id], s.log[a].user);
    UserPreserved(user, reason, s.conns[id].line.value);
  }

  /** The same for the module as a whole: when it returns success for a user, whatever its arguments,
      and its exchange was that of connection `id` of a run, that login was earned. */
  lemma LoginIsEarned(run: seq<Label>, id: nat, user: string, args: seq<Arg>, daemon: (string, string) -> Exchange)
    returns (a: nat)
    requires Exec(run).Some? && Succeeds(User(user), args, daemon)
    requires forall reason :: ReasonFrom(args, reason) ==>
               var x := daemon(user, Sent(reason)); x.Heard? ==> Talks(Exec(run).value, id, user, Sent(reason), x.line)
    ensures var s := Exec(run).value;
            && StandsOn(s, id, a) && Justified(s, a, id)
            && (s.log[a].user == user <==> '\n' !in user)
  {
    hide Exec, Talks, Approves, StandsOn, Justified, ReasonFrom, Sent;
    var reason :| ReasonFrom(args, reason) && var x := daemon(user, Sent(reason)); x.Heard? && Approves(x.line);
    a := SuccessIsEarned(run, id, user, Sent(reason), daemon(user, Sent(reason)).line);
  }

  /** A user name that the backend could approve at all is one that arrives unchanged. */
  lemma ValidUserIsChecked(user: string)
    requires ValidUsername(user)
    ensures '\n' !in user && ValidField(user)
  {
  }

  /** Successes of different connections stand on different approvals. */
  lemma SuccessesAreDistinct(run: seq<Label>, id1: nat, id2: nat, a: nat)
    requires Exec(run).Some? && StandsOn(Exec(run).value, id1, a) && StandsOn(Exec(run).value, id2, a)
    ensures id1 == id2
  {
    hide Exec;
    var s := Exec(run).value;
    var j: nat :| a < j < |s.log| && s.log[j].Answered? && s.log[j].id == id1 && s.log[j].approval == Some(a);
    var k: nat :| a < k < |s.log| && s.log[k].Answered? && s.log[k].id == id2 && s.log[k].approval == Some(a);
    if j < k {
      OksAreDistinct(run, j, k);
    } else if k < j {
      OksAreDistinct(run, k, j);
    }
  }
}
