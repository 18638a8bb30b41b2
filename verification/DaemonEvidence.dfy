// What stands behind an OK: in every reachable state the log holds, for each request a worker is
// serving and for each answer already given, the checks it has passed, in order.
module DaemonEvidence {
  import opened Text
  import opened Protocol
  import opened HowdyConfig
  import opened Hardware
  import opened RateLimit
  import opened Backend
  import opened Daemon
  import opened DaemonLocks
  import opened DaemonQueue

  predicate CamEvent(e: Event) {
    e.CamTaken? || e.CamFreed?
  }

  /** The connection asked to authenticate this user. */
  predicate Asked(c: Conn, user: string) {
    && c.line.Some? && Complete(c.line.value)
    && var d := DecodeRequest(c.line.value); d.Accepted? && d.request.Authenticate? && d.request.user == user
  }

  /** Entry `n` of the log is the user lookup of the request, and the peer-uid rule was met. */
  ghost predicate LookupAt(log: seq<Event>, conns: seq<Conn>, id: nat, user: string, n: nat) {
    && n < |log| && id < |conns| && Asked(conns[id], user)
    && log[n].LookedUp? && log[n].id == id && log[n].user == user
    && (conns[id].uid == 0 || conns[id].uid == log[n].target)
  }

  /** Entry `n` is the admission of the request by the limiter, counted for the peer's uid. */
  ghost predicate AdmittedAt(log: seq<Event>, conns: seq<Conn>, id: nat, n: nat) {
    && n < |log| && id < |conns|
    && log[n].Tried? && log[n].id == id && log[n].admitted && log[n].attempt.uid == conns[id].uid
  }

  /** Worker `w` took the camera lock at entry `n`, and nobody took or freed it since. */
  ghost predicate TenureAt(log: seq<Event>, w: nat, n: nat) {
    && n < |log| && log[n] == CamTaken(w)
    && forall k :: n < k < |log| ==> !CamEvent(log[k])
  }

  /** Entry `n` is the policy check: the configured camera is a strict device. */
  ghost predicate PolicyAt(log: seq<Event>, id: nat, n: nat) {
    && n < |log| && log[n].PolicyPassed? && log[n].id == id
    && ConfiguredCamera(log[n].config).Device?
    && Identifies(log[n].machine, ConfiguredCamera(log[n].config).path, log[n].device)
  }

  /** All the checks of an authentication, in order, the last under one hold of the camera lock. */
  ghost predicate Earned(log: seq<Event>, conns: seq<Conn>, id: nat, user: string, w: nat, t: Trail) {
    && LookupAt(log, conns, id, user, t.lookup) && AdmittedAt(log, conns, id, t.rate)
    && TenureAt(log, w, t.enter) && PolicyAt(log, id, t.policy)
    && t.lookup < t.rate < t.enter < t.policy
  }

  /** Entry `n` is the backend's approval of the request. */
  predicate ApprovalAt(log: seq<Event>, id: nat, n: nat) {
    n < |log| && log[n].Approved? && log[n].id == id
  }

  ghost predicate PcBacked(pc: Pc, w: nat, log: seq<Event>, conns: seq<Conn>) {
    match pc
    case LookUp(id, user) => id < |conns| && Asked(conns[id], user)
    case WantRate(id, user, t) => LookupAt(log, conns, id, user, t.lookup)
    case InRate(id, user, t) => LookupAt(log, conns, id, user, t.lookup)
    case WantCam(id, user, t) =>
      LookupAt(log, conns, id, user, t.lookup) && AdmittedAt(log, conns, id, t.rate) && t.lookup < t.rate
    case InCam(id, user, t) =>
      LookupAt(log, conns, id, user, t.lookup) && AdmittedAt(log, conns, id, t.rate) && TenureAt(log, w, t.enter)
      && t.lookup < t.rate < t.enter
    case Checked(id, user, t) => Earned(log, conns, id, user, w, t)
    case Reply(id, response, approval) =>
      (response.Ok? <==> approval.Some?) && (approval.Some? ==> ApprovalAt(log, id, approval.value))
    case _ => true
  }

  ghost predicate EventBacked(log: seq<Event>, k: nat, conns: seq<Conn>)
    requires k < |log|
  {
    match log[k]
    case Approved(id, user, w, t, child) =>
      Earned(log[..k], conns, id, user, w, t) && Sleeps(child) && Approvable(user, child)
    case Answered(id, response, approval) =>
      (response.Ok? <==> approval.Some?) && (approval.Some? ==> ApprovalAt(log[..k], id, approval.value))
    case _ => true
  }

  ghost predicate AllBacked(s: State) {
    && |s.pcs| == WORKERS
    && (forall w: nat :: w < WORKERS ==> PcBacked(s.pcs[w], w, s.log, s.conns))
    && (forall k: nat :: k < |s.log| ==> EventBacked(s.log, k, s.conns))
  }

  // ---------------------------------------------------------------- one step

  lemma ParseBacked(s: State, l: Label)
    requires Enabled(s, l) && (l.ParseLine? || l.FindUser?) && PcBacked(s.pcs[l.w], l.w, s.log, s.conns)
    ensures PcBacked(MoveOf(s, l).pc, l.w, s.log + MoveOf(s, l).events, s.conns)
  {
    hide Complete, DecodeRequest, Message;
  }

  lemma DecideBacked(s: State, l: Label)
    requires Enabled(s, l) && l.Decide? && PcBacked(s.pcs[l.w], l.w, s.log, s.conns)
    ensures PcBacked(MoveOf(s, l).pc, l.w, s.log + MoveOf(s, l).events, s.conns)
  {
    hide Asked, Admits, Message;
  }

  lemma PolicyBacked(s: State, l: Label)
    requires Enabled(s, l) && (l.CheckPolicy? || l.Recognise?) && PcBacked(s.pcs[l.w], l.w, s.log, s.conns)
    ensures PcBacked(MoveOf(s, l).pc, l.w, s.log + MoveOf(s, l).events, s.conns)
  {
    hide Asked, Identifies, ConfiguredCamera, Message, Approvable, Sleeps;
  }

  lemma MoveBacked(s: State, l: Label)
    requires Enabled(s, l) && Worker(l).Some? && PcBacked(s.pcs[l.w], l.w, s.log, s.conns)
    ensures PcBacked(MoveOf(s, l).pc, l.w, s.log + MoveOf(s, l).events, s.conns)
  {
    hide ParseMove, FindUserMove, DecideMove, PolicyMove, RecogniseMove, Message, Asked, LegalAnswer;
    if l.ParseLine? || l.FindUser? {
      ParseBacked(s, l);
    } else if l.Decide? {
      DecideBacked(s, l);
    } else if l.CheckPolicy? || l.Recognise? {
      PolicyBacked(s, l);
    }
  }

  /** What the events of a move may be. */
  ghost predicate Speaks(pc: Pc, w: nat, m: Move, now: nat) {
    && |m.events| <= 2
    && (forall j :: 0 <= j < |m.events| && m.events[j].Approved? ==>
          j == 0 && pc.Checked? && m.events[j] == Approved(pc.id, pc.user, w, pc.trail, m.events[j].child)
          && Sleeps(m.events[j].child) && Approvable(pc.user, m.events[j].child)
          && m.pc.Reply? && m.pc.id == pc.id && m.pc.approval == Some(now))
    && (forall j :: 0 <= j < |m.events| && m.events[j].Answered? ==>
          |m.events| == 1 && pc.Reply? && m.events[j] == Answered(pc.id, pc.response, pc.approval)
          && m.ending == Some(Finished))
    && (forall j :: 0 <= j < |m.events| && CamEvent(m.events[j]) ==> m.cam != Keep)
    && (pc.Reply? ==> !Serving(m.pc))
  }

  lemma MoveSpeaks(s: State, l: Label)
    requires Enabled(s, l) && Worker(l).Some?
    ensures Speaks(s.pcs[l.w], l.w, MoveOf(s, l), |s.log|)
  {
    hide Complete, DecodeRequest, LegalPolicy, ConfiguredCamera, Admits, Message, MayAuthenticate, Approvable, Sleeps;
  }

  lemma PcStaysBacked(pc: Pc, w: nat, log: seq<Event>, conns: seq<Conn>, events: seq<Event>, more: seq<Conn>)
    requires PcBacked(pc, w, log, conns)
    requires HoldsCam(pc) ==> forall j :: 0 <= j < |events| ==> !CamEvent(events[j])
    ensures PcBacked(pc, w, log + events, conns + more)
  {
  }

  lemma EventStaysBacked(log: seq<Event>, k: nat, conns: seq<Conn>, events: seq<Event>, more: seq<Conn>)
    requires k < |log| && EventBacked(log, k, conns)
    ensures EventBacked(log + events, k, conns + more)
  {
    hide Asked, TenureAt, PolicyAt;
    assert (log + events)[..k] == log[..k];
  }

  lemma NewEventBacked(s: State, w: nat, m: Move, j: nat)
    requires AllBacked(s) && w < WORKERS && Speaks(s.pcs[w], w, m, |s.log|) && j < |m.events|
    ensures EventBacked(s.log + m.events, |s.log| + j, s.conns)
  {
  }

  lemma ApplyKeepsBacked(s: State, w: nat, m: Move)
    requires LocksMatch(s) && AllBacked(s) && w < WORKERS
    requires m.takes ==> s.queue != []
    requires m.ending.Some? ==> Serving(s.pcs[w])
    requires Speaks(s.pcs[w], w, m, |s.log|) && Grips(s.cam, m.cam, HoldsCam(s.pcs[w]), HoldsCam(m.pc))
    requires PcBacked(m.pc, w, s.log + m.events, s.conns)
    ensures AllBacked(Apply(s, w, m))
  {
    var t := Apply(s, w, m);
    assert s.conns + [] == s.conns;
    forall v: nat | v < WORKERS && v != w ensures PcBacked(t.pcs[v], v, t.log, t.conns) {
      assert HoldsCam(s.pcs[v]) ==> s.cam.owner == Some(v);
      hide PcBacked, EventBacked;
      PcStaysBacked(s.pcs[v], v, s.log, s.conns, m.events, []);
    }
    forall k: nat | k < |t.log| ensures EventBacked(t.log, k, t.conns) {
      hide PcBacked, EventBacked, LocksMatch, Speaks;
      if k < |s.log| {
        EventStaysBacked(s.log, k, s.conns, m.events, []);
      } else {
        NewEventBacked(s, w, m, k - |s.log|);
      }
    }
  }

  lemma AcceptKeepsBacked(s: State, conn: Conn)
    requires AllBacked(s)
    ensures AllBacked(DoAccept(s, conn))
  {
    assert s.log + [] == s.log;
    hide PcBacked, EventBacked;
    forall v: nat | v < WORKERS ensures PcBacked(s.pcs[v], v, s.log, s.conns + [conn]) {
      PcStaysBacked(s.pcs[v], v, s.log, s.conns, [], [conn]);
    }
    forall k: nat | k < |s.log| ensures EventBacked(s.log, k, s.conns + [conn]) {
      EventStaysBacked(s.log, k, s.conns, [], [conn]);
    }
  }

  lemma BackedStep(s: State, l: Label)
    requires LocksMatch(s) && AllBacked(s) && Enabled(s, l)
    ensures AllBacked(Do(s, l))
  {
    hide PcBacked, EventBacked, LocksMatch, Speaks, Grips, MoveOf, Apply, DoAccept;
    if Worker(l).Some? {
      assert PcBacked(s.pcs[l.w], l.w, s.log, s.conns);
      MoveBacked(s, l);
      MoveSpeaks(s, l);
      MoveGrips(s, l);
      MoveIsOrderly(s, l);
      ApplyKeepsBacked(s, l.w, MoveOf(s, l));
    } else if l.Accept? {
      AcceptKeepsBacked(s, l.conn);
    }
  }
}
