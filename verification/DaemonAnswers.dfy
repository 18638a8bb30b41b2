// What the daemon answers: which way every step of a request goes, spelled out, and that every
// answer of a run is the right kind of answer to the line of its connection.
module DaemonAnswers {
  import opened Text
  import opened Protocol
  import opened HowdyConfig
  import opened Hardware
  import opened RateLimit
  import opened Backend
  import opened Daemon
  import opened DaemonLocks
  import opened DaemonQueue
  import opened DaemonEvidence
  import opened DaemonOnce
  import opened DaemonRates
  import opened DaemonSafety

  // ---------------------------------------------------------------- one step

  /** A connection is queued when fewer than 16 are, behind all others, and dropped otherwise. */
  lemma AcceptExactly(s: State, conn: Conn)
    requires |s.fate| == |s.conns|
    ensures var t, id := Do(s, Accept(conn)), |s.conns|;
            && t.conns == s.conns + [conn]
            && (t.fate[id].Queued? <==> |s.queue| < 16) && (t.fate[id].Dropped? <==> |s.queue| >= 16)
            && t.queue == s.queue + if |s.queue| < 16 then [id] else []
  {
  }

  /** The worker now answers that the request is refused, for this reason. */
  predicate Refuses(s: State, t: State, w: nat, text: string) {
    && HasWorker(s, w) && HasWorker(t, w) && Serving(s.pcs[w])
    && t.pcs[w] == Reply(s.pcs[w].id, Response.Error(text), None)
  }

  lemma NextPc(s: State, l: Label)
    requires Enabled(s, l) && Worker(l).Some?
    ensures HasWorker(s, l.w) && HasWorker(Do(s, l), l.w) && Do(s, l).pcs[l.w] == MoveOf(s, l).pc
  {
    hide MoveOf, Enabled;
    EnabledHasWorker(s, l);
  }

  /** An idle worker waits for the receiver's lock alone; if it is poisoned the worker is gone. */
  lemma LockRecvExactly(s: State, w: nat)
    ensures Enabled(s, LockRecv(w)) <==> w < 4 && w < |s.pcs| && s.pcs[w].WantRecv? && s.recv.owner == None
    ensures Enabled(s, LockRecv(w)) ==>
              var t := Do(s, LockRecv(w));
              HasWorker(t, w) && t.pcs[w] == (if s.recv.poisoned then Pc.Exited else InRecv)
  {
  }

  /** Under that lock it takes the connection at the head of the queue, and frees the lock. */
  lemma TakeExactly(s: State, w: nat)
    ensures Enabled(s, Take(w)) <==> w < 4 && w < |s.pcs| && s.pcs[w].InRecv? && s.queue != []
    ensures Enabled(s, Take(w)) ==>
              var t := Do(s, Take(w));
              && HasWorker(t, w) && t.pcs[w] == Parse(s.queue[0]) && t.queue == s.queue[1..]
              && t.recv == Lock(None, s.recv.poisoned)
              && (s.queue[0] < |s.fate| ==> t.fate == s.fate[s.queue[0] := InService(w)])
  {
  }

  /** The two requests without a user. */
  lemma BareRequestsExactly(s: State, w: nat, status: DaemonStatus)
    requires w < 4 && w < |s.pcs| && s.pcs[w].Parse? && s.pcs[w].id < |s.conns|
    ensures Enabled(s, ParseLine(w, status))
    ensures var t, conn, id := Do(s, ParseLine(w, status)), s.conns[s.pcs[w].id], s.pcs[w].id;
            && HasWorker(t, w)
            && (conn.line == Some("V1\tPING\n") ==> t.pcs[w] == Reply(id, Pong, None))
            && (conn.line == Some("V1\tSTATUS\n") ==> t.pcs[w] == Reply(id, Report(status), None))
            && (conn.line == None ==> t.pcs[w] == WantRecv)
  {
    hide DecodeRequest, Complete, ErrorText, Message;
    BareLines();
  }

  lemma BareLines()
    ensures Complete("V1\tPING\n") && DecodeRequest("V1\tPING\n") == Accepted(Ping)
    ensures Complete("V1\tSTATUS\n") && DecodeRequest("V1\tSTATUS\n") == Accepted(Status)
  {
    hide DecodeRequest;
    DecodeBare("PING");
    DecodeBare("STATUS");
    assert "V1\tPING\n"[7] == '\n' && "V1\tSTATUS\n"[9] == '\n';
  }

  /** The peer-uid rule: root may ask for every user and others for themselves alone. */
  lemma FindUserExactly(s: State, w: nat, target: Option<nat>)
    requires w < 4 && w < |s.pcs| && s.pcs[w].LookUp? && s.pcs[w].id < |s.conns|
    ensures Enabled(s, FindUser(w, target))
    ensures var t, uid := Do(s, FindUser(w, target)), s.conns[s.pcs[w].id].uid;
            && HasWorker(t, w)
            && (t.pcs[w].WantRate? <==> target.Some? && (uid == 0 || uid == target.value))
            && (t.pcs[w].WantRate? ==> t.pcs[w].id == s.pcs[w].id && t.pcs[w].user == s.pcs[w].user)
            && (target == None ==> Refuses(s, t, w, "unknown user"))
            && (target.Some? && uid != 0 && uid != target.value ==>
                  Refuses(s, t, w, "peer may authenticate only itself"))
  {
  }

  lemma LockRateExactly(s: State, w: nat)
    ensures Enabled(s, LockRate(w)) <==> w < 4 && w < |s.pcs| && s.pcs[w].WantRate? && s.rate.owner == None
    ensures Enabled(s, LockRate(w)) ==>
              var t := Do(s, LockRate(w));
              && HasWorker(t, w) && (t.pcs[w].InRate? <==> !s.rate.poisoned)
              && (s.rate.poisoned ==> Refuses(s, t, w, "authentication request rate-limited"))
  {
    if Enabled(s, LockRate(w)) {
      NextPc(s, LockRate(w));
    }
    hide Apply;
  }

  /** The limiter: refused exactly if this uid was admitted less than 500 ms before; only an
      admission is recorded. */
  lemma DecideExactly(s: State, w: nat)
    requires w < 4 && w < |s.pcs| && s.pcs[w].InRate? && s.pcs[w].id < |s.conns|
    ensures Enabled(s, Decide(w))
    ensures var t, uid := Do(s, Decide(w)), s.conns[s.pcs[w].id].uid;
            && HasWorker(t, w)
            && (t.pcs[w].WantCam? <==> !(uid in s.last && s.clock - s.last[uid] < 500))
            && (t.pcs[w].WantCam? ==> t.last == s.last[uid := s.clock])
            && (!t.pcs[w].WantCam? ==>
                  t.last == s.last && Refuses(s, t, w, "authentication request rate-limited"))
  {
  }

  lemma LockCamExactly(s: State, w: nat)
    ensures Enabled(s, LockCam(w)) <==> w < 4 && w < |s.pcs| && s.pcs[w].WantCam? && s.cam.owner == None
    ensures Enabled(s, LockCam(w)) ==>
              var t := Do(s, LockCam(w));
              && HasWorker(t, w) && (t.pcs[w].InCam? <==> !s.cam.poisoned)
              && (s.cam.poisoned ==> Refuses(s, t, w, "authentication lock poisoned"))
  {
    if Enabled(s, LockCam(w)) {
      NextPc(s, LockCam(w));
    }
    hide Apply;
  }

  lemma PolicyRefusals(w: nat, pc: Pc, now: nat, config: Config, machine: Machine, verdict: Policy)
    requires pc.InCam?
    ensures var to, camera := PolicyMove(w, pc, now, config, machine, verdict).pc, ConfiguredCamera(config);
            if camera.Device? && verdict.StrictDevice? then to.Checked?
            else to == Reply(pc.id, Response.Error(GateText(camera, verdict)), None)
  {
    hide ConfiguredCamera;
    assert forall why: Refusal :: Refuse(pc.id, why).pc == Reply(pc.id, Response.Error(Message(why)), None);
    hide Refuse;
  }

  /** Why the camera gate is closed. */
  function GateText(camera: Camera, verdict: Policy): string {
    if camera.Unconfigured? then "Howdy camera is not configured"
    else if camera.ConfigError? then "Howdy camera configuration error"
    else if verdict.NotStrict? then "Howdy is not bound to a strict IR/depth camera"
    else "camera policy error"
  }

  /** The camera gate: only a configured path that the policy finds strict gets past it. */
  lemma CheckPolicyExactly(s: State, w: nat, config: Config, machine: Machine, verdict: Policy)
    requires w < 4 && w < |s.pcs| && s.pcs[w].InCam?
    requires ConfiguredCamera(config).Device? ==> LegalPolicy(machine, ConfiguredCamera(config).path, verdict)
    ensures Enabled(s, CheckPolicy(w, config, machine, verdict))
    ensures var t, camera := Do(s, CheckPolicy(w, config, machine, verdict)), ConfiguredCamera(config);
            && HasWorker(t, w)
            && (t.pcs[w].Checked? <==> camera.Device? && verdict.StrictDevice?)
            && (camera.Unconfigured? ==> Refuses(s, t, w, "Howdy camera is not configured"))
            && (camera.ConfigError? ==> Refuses(s, t, w, "Howdy camera configuration error"))
            && (camera.Device? && verdict.NotStrict? ==>
                  Refuses(s, t, w, "Howdy is not bound to a strict IR/depth camera"))
            && (camera.Device? && verdict.PolicyError? ==> Refuses(s, t, w, "camera policy error"))
  {
    NextPc(s, CheckPolicy(w, config, machine, verdict));
    PolicyRefusals(w, s.pcs[w], |s.log|, config, machine, verdict);
    hide ConfiguredCamera, LegalPolicy, Do, Apply, PolicyMove, Message;
  }

  /** The backend: an OK exactly for an approvable child. */
  lemma RecogniseExactly(s: State, w: nat, child: Option<Child>, answer: Verdict)
    requires w < 4 && w < |s.pcs| && s.pcs[w].Checked?
    requires child.Some? ==> Sleeps(child.value)
    requires answer.Approve? <==> child.Some? && Approvable(s.pcs[w].user, child.value)
    ensures Enabled(s, Recognise(w, child, answer))
    ensures var t := Do(s, Recognise(w, child, answer));
            && HasWorker(t, w) && t.pcs[w].Reply? && t.pcs[w].id == s.pcs[w].id
            && (t.pcs[w].response == Response.Ok("face verified") <==>
                  child.Some? && Approvable(s.pcs[w].user, child.value))
            && (answer.Deny? ==> Refuses(s, t, w, "face verification denied"))
            && (answer.BackendError? ==> Refuses(s, t, w, "backend error"))
  {
    NextPc(s, Recognise(w, child, answer));
    hide Approvable, Sleeps, Apply;
  }

  /** The answer goes out as it is, and the connection is finished. */
  lemma SendExactly(s: State, w: nat)
    requires w < 4 && w < |s.pcs| && s.pcs[w].Reply?
    ensures Enabled(s, Send(w))
    ensures var t, pc := Do(s, Send(w)), s.pcs[w];
            && HasWorker(t, w) && t.pcs[w] == WantRecv
            && t.log == s.log + [Answered(pc.id, pc.response, pc.approval)]
            && (pc.id < |s.fate| ==> t.fate == s.fate[pc.id := Finished])
  {
  }

  /** A panic, which can happen to every worker that is busy: it is gone, its connection is lost, and
      the one lock it held is free and poisoned. */
  lemma PanicExactly(s: State, w: nat)
    requires LocksMatch(s) && w < 4 && !s.pcs[w].Exited? && !s.pcs[w].WantRecv?
    ensures Enabled(s, Panic(w))
    ensures var t, pc := Do(s, Panic(w)), s.pcs[w];
            && HasWorker(t, w) && t.pcs[w] == Pc.Exited
            && t.recv == (if pc.InRecv? then Lock(None, true) else s.recv)
            && t.rate == (if pc.InRate? then Lock(None, true) else s.rate)
            && t.cam == (if pc.InCam? || pc.Checked? then Lock(None, true) else s.cam)
            && (Serving(pc) && pc.id < |s.fate| ==> t.fate == s.fate[pc.id := Lost])
            && t.queue == s.queue && t.last == s.last
  {
  }

  // ---------------------------------------------------------------- over runs

  /** Why an authentication may be refused. */
  predicate RefusesAuthentication(text: string) {
    || text == "unknown user" || text == "peer may authenticate only itself"
    || text == "authentication request rate-limited" || text == "authentication lock poisoned"
    || text == "Howdy camera is not configured" || text == "Howdy camera configuration error"
    || text == "Howdy is not bound to a strict IR/depth camera" || text == "camera policy error"
    || text == "face verification denied" || text == "backend error"
  }

  /** The response is one that the line of the connection calls for. */
  predicate Fits(conn: Conn, r: Response) {
    && conn.line.Some?
    && if !Complete(conn.line.value) then
         r == Response.Error("protocol: request must be newline-terminated" + " and at most 1024 bytes")
       else
         match DecodeRequest(conn.line.value)
         case Accepted(Ping) => r == Pong
         case Accepted(Status) => r.Report?
         case Accepted(Authenticate(_, _)) =>
           r == Response.Ok("face verified") || (r.Error? && RefusesAuthentication(r.msg))
         case Rejected(Empty) => r == Response.Error("protocol: " + "empty request")
         case Rejected(InvalidCommand) => r == Response.Error("protocol: " + "invalid command")
         case Rejected(InvalidField) => r == Response.Error("protocol: " + "invalid field")
         case Rejected(UnsupportedVersion) => r == Response.Error("protocol: " + "unsupported protocol version")
  }

  ghost predicate PcFits(pc: Pc, conns: seq<Conn>) {
    pc.Reply? ==> pc.id < |conns| && Fits(conns[pc.id], pc.response)
  }

  ghost predicate EventFits(e: Event, conns: seq<Conn>) {
    e.Answered? ==> e.id < |conns| && Fits(conns[e.id], e.response)
  }

  ghost predicate AllFit(s: State) {
    && |s.pcs| == WORKERS
    && (forall w: nat :: w < WORKERS ==> PcFits(s.pcs[w], s.conns))
    && (forall k: nat :: k < |s.log| ==> EventFits(s.log[k], s.conns))
  }

  /** A worker past the parser serves a connection that asked to authenticate. */
  lemma AskedBehindParser(pc: Pc, w: nat, log: seq<Event>, conns: seq<Conn>)
    requires PcBacked(pc, w, log, conns)
    requires pc.LookUp? || pc.WantRate? || pc.InRate? || pc.WantCam? || pc.InCam? || pc.Checked?
    ensures pc.id < |conns| && Asked(conns[pc.id], pc.user)
  {
    hide Asked;
  }

  lemma AskedFits(conn: Conn, user: string, r: Response)
    requires Asked(conn, user)
    requires r == Response.Ok("face verified") || (r.Error? && RefusesAuthentication(r.msg))
    ensures Fits(conn, r)
  {
    hide Complete, DecodeRequest, RefusesAuthentication;
  }

  lemma ParseFits(s: State, l: Label)
    requires Enabled(s, l) && l.ParseLine?
    ensures PcFits(MoveOf(s, l).pc, s.conns)
  {
    hide Complete, DecodeRequest, RefusesAuthentication;
  }

  /** These steps answer nothing. */
  lemma Quiet(s: State, l: Label)
    requires Enabled(s, l) && (l.LockRecv? || l.Take? || l.Send? || l.Panic?)
    ensures !MoveOf(s, l).pc.Reply?
  {
  }

  /** Ahead of the camera check only refusals are answered. */
  lemma EarlyAnswers(s: State, l: Label)
    requires Enabled(s, l) && (l.FindUser? || l.Decide? || l.LockRate? || l.LockCam?) && MoveOf(s, l).pc.Reply?
    ensures var r := MoveOf(s, l).pc.response; r.Error? && RefusesAuthentication(r.msg)
  {
    NextPc(s, l);
    hide MoveOf, Do, Apply;
    match l {
      case FindUser(w, target) => FindUserExactly(s, w, target);
      case Decide(w) => DecideExactly(s, w);
      case LockRate(w) => LockRateExactly(s, w);
      case LockCam(w) => LockCamExactly(s, w);
    }
  }

  /** What a worker past the parser may answer. */
  lemma StepAnswers(s: State, l: Label)
    requires Enabled(s, l) && Worker(l).Some? && !l.ParseLine? && MoveOf(s, l).pc.Reply?
    ensures var r := MoveOf(s, l).pc.response;
            r == Response.Ok("face verified") || (r.Error? && RefusesAuthentication(r.msg))
  {
    NextPc(s, l);
    hide MoveOf, Do, Apply, ConfiguredCamera, LegalPolicy, Approvable, Sleeps;
    match l {
      case FindUser(_, _) => EarlyAnswers(s, l);
      case Decide(_) => EarlyAnswers(s, l);
      case LockRate(_) => EarlyAnswers(s, l);
      case LockCam(_) => EarlyAnswers(s, l);
      case CheckPolicy(w, config, machine, verdict) => CheckPolicyExactly(s, w, config, machine, verdict);
      case Recognise(w, child, answer) => RecogniseExactly(s, w, child, answer);
      case _ => Quiet(s, l);
    }
  }

  lemma ReplierWasAsked(s: State, l: Label)
    requires Enabled(s, l) && Worker(l).Some? && !l.ParseLine? && MoveOf(s, l).pc.Reply?
    ensures var pc := s.pcs[l.w];
            && MoveOf(s, l).pc.id == pc.id
            && (pc.LookUp? || pc.WantRate? || pc.InRate? || pc.WantCam? || pc.InCam? || pc.Checked?)
  {
    hide Message, Approvable, ConfiguredCamera, LegalPolicy, Admits, Sleeps, MayAuthenticate;
  }

  lemma MoveFits(s: State, l: Label)
    requires Enabled(s, l) && Worker(l).Some? && PcBacked(s.pcs[l.w], l.w, s.log, s.conns)
    ensures PcFits(MoveOf(s, l).pc, s.conns)
  {
    hide Fits, Message, Asked, PcBacked, MoveOf, RefusesAuthentication;
    if l.ParseLine? {
      ParseFits(s, l);
    } else if MoveOf(s, l).pc.Reply? {
      StepAnswers(s, l);
      ReplierWasAsked(s, l);
      AskedBehindParser(s.pcs[l.w], l.w, s.log, s.conns);
      AskedFits(s.conns[s.pcs[l.w].id], s.pcs[l.w].user, MoveOf(s, l).pc.response);
    }
  }

  lemma ApplyKeepsFit(s: State, w: nat, m: Move)
    requires AllFit(s) && w < WORKERS && Speaks(s.pcs[w], w, m, |s.log|) && PcFits(m.pc, s.conns)
    requires m.takes ==> s.queue != []
    requires m.ending.Some? ==> Serving(s.pcs[w])
    ensures AllFit(Apply(s, w, m))
  {
    hide Fits;
    var t := Apply(s, w, m);
    forall k: nat | k < |t.log| ensures EventFits(t.log[k], t.conns) {
      if k >= |s.log| {
        assert t.log[k] == m.events[k - |s.log|];
      }
    }
  }

  lemma FitStep(s: State, l: Label)
    requires AllBacked(s) && AllFit(s) && Enabled(s, l)
    ensures AllFit(Do(s, l))
  {
    hide Fits, PcBacked, EventBacked, Speaks, MoveOf, Apply, PcFits, EventFits;
    if Worker(l).Some? {
      assert PcBacked(s.pcs[l.w], l.w, s.log, s.conns);
      MoveFits(s, l);
      MoveSpeaks(s, l);
      MoveIsOrderly(s, l);
      ApplyKeepsFit(s, l.w, MoveOf(s, l));
    } else if l.Accept? {
      AcceptKeepsFit(s, l.conn);
    }
  }

  lemma AcceptKeepsFit(s: State, conn: Conn)
    requires AllFit(s)
    ensures AllFit(DoAccept(s, conn))
  {
    hide Fits;
  }

  lemma NothingToFit()
    ensures AllFit(INIT)
  {
  }

  lemma {:induction false} RunFits(run: seq<Label>)
    requires Exec(run).Some?
    ensures AllFit(Exec(run).value)
  {
    hide AllFit, Enabled, Do, LocksMatch, Places, Posts, AllBacked, Once, Closed, RateKept;
    if run == [] {
      NothingToFit();
    } else {
      RunFits(run[..|run| - 1]);
      Reachable(run[..|run| - 1]);
      FitStep(Exec(run[..|run| - 1]).value, run[|run| - 1]);
    }
  }

  /** In every run each answer fits its request: PONG for a ping, a report for a status request, OK
      or one of the ten refusals for an authentication, and the protocol error for everything else. */
  lemma AnswersFit(run: seq<Label>, k: nat)
    requires Exec(run).Some? && k < |Exec(run).value.log| && Exec(run).value.log[k].Answered?
    ensures var s := Exec(run).value; var e := s.log[k];
            e.id < |s.conns| && Fits(s.conns[e.id], e.response)
  {
    RunFits(run);
    hide Exec, Fits;
    assert EventFits(Exec(run).value.log[k], Exec(run).value.conns);
  }
}
