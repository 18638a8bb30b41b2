// irauthd as a concurrent state machine: one acceptor, a bounded queue, four workers, and three
// mutexes. A run is any sequence of labels; every label is one atomic step of one thread, and a
// worker may panic in the middle of a request, which poisons the locks it holds.
module Daemon {
  import opened Text
  import opened Protocol
  import opened HowdyConfig
  import opened Hardware
  import opened RateLimit
  import opened Backend

  const WORKERS := 4
  const QUEUE := 16

  /** An accepted connection: the peer's uid and what reading one line from it gives. */
  datatype Conn = Conn(uid: nat, line: Option<string>)

  datatype Lock = Lock(owner: Option<nat>, poisoned: bool)

  const FREE := Lock(None, false)

  /** Where in the log an authentication passed its checks. */
  datatype Trail = Trail(lookup: nat, rate: nat, enter: nat, policy: nat)

  /** What a worker is about to do. */
  datatype Pc =
    | WantRecv
    | InRecv
    | Parse(id: nat)
    | LookUp(id: nat, user: string)
    | WantRate(id: nat, user: string, trail: Trail)
    | InRate(id: nat, user: string, trail: Trail)
    | WantCam(id: nat, user: string, trail: Trail)
    | InCam(id: nat, user: string, trail: Trail)
    | Checked(id: nat, user: string, trail: Trail)
    | Reply(id: nat, response: Response, approval: Option<nat>)
    | Exited

  datatype Event =
    | LookedUp(id: nat, user: string, target: nat)
    | Tried(id: nat, attempt: Attempt, admitted: bool)
    | CamTaken(worker: nat)
    | CamFreed(worker: nat)
    | PolicyPassed(id: nat, config: Config, machine: Machine, device: VideoDevice)
    | Approved(id: nat, user: string, worker: nat, trail: Trail, child: Child)
    | Answered(id: nat, response: Response, approval: Option<nat>)

  /** What became of an accepted connection. */
  datatype Fate = Dropped | Queued | InService(worker: nat) | Finished | Lost

  datatype State = State(
    clock: nat,
    conns: seq<Conn>,
    queue: seq<nat>,
    taken: seq<nat>,
    fate: seq<Fate>,
    pcs: seq<Pc>,
    recv: Lock,
    rate: Lock,
    cam: Lock,
    last: Table,
    log: seq<Event>)

  function IdleWorkers(): (pcs: seq<Pc>)
    ensures |pcs| == WORKERS && forall w :: 0 <= w < WORKERS ==> pcs[w] == WantRecv
  {
    [WantRecv, WantRecv, WantRecv, WantRecv]
  }

  const INIT := State(0, [], [], [], [], IdleWorkers(), FREE, FREE, FREE, map[], [])

  /** The answer of the face backend. */
  datatype Verdict = Approve | Deny | BackendError

  datatype Label =
    | Tick(ms: nat)
    | Accept(conn: Conn)
    | LockRecv(w: nat)
    | Take(w: nat)
    | ParseLine(w: nat, status: DaemonStatus)
    | FindUser(w: nat, target: Option<nat>)
    | LockRate(w: nat)
    | Decide(w: nat)
    | LockCam(w: nat)
    | CheckPolicy(w: nat, config: Config, machine: Machine, verdict: Policy)
    | Recognise(w: nat, child: Option<Child>, answer: Verdict)
    | Send(w: nat)
    | Panic(w: nat)

  /** Why a request is refused. */
  datatype Refusal =
    | Incomplete | Malformed(error: ProtocolError)
    | UnknownUser | WrongPeer | RateLimited | LockPoisoned
    | NoCamera | CameraConfigError | NotStrictCamera | CameraPolicyError
    | Denied | BackendFailed

  function Message(why: Refusal): string {
    match why
    case Incomplete => "protocol: request must be newline-terminated" + " and at most 1024 bytes"
    case Malformed(error) => "protocol: " + ErrorText(error)
    case UnknownUser => "unknown user"
    case WrongPeer => "peer may authenticate only itself"
    case RateLimited => "authentication request rate-limited"
    case LockPoisoned => "authentication lock poisoned"
    case NoCamera => "Howdy camera is not configured"
    case CameraConfigError => "Howdy camera configuration error"
    case NotStrictCamera => "Howdy is not bound to a strict IR/depth camera"
    case CameraPolicyError => "camera policy error"
    case Denied => "face verification denied"
    case BackendFailed => "backend error"
  }

  /** The text of a granted request. */
  function Granted(): string {
    "face verified"
  }

  // ---------------------------------------------------------------- steps

  predicate Serving(pc: Pc) {
    !pc.WantRecv? && !pc.InRecv? && !pc.Exited?
  }

  predicate HoldsCam(pc: Pc) {
    pc.InCam? || pc.Checked?
  }

  predicate MayAuthenticate(peer: nat, target: nat) {
    peer == 0 || peer == target
  }

  /** The answer that the backend gives, if it gives one: it approves exactly what is approvable. */
  ghost predicate LegalAnswer(user: string, child: Option<Child>, answer: Verdict) {
    && (child.Some? ==> Sleeps(child.value))
    && (answer.Approve? <==> child.Some? && Approvable(user, child.value))
  }

  predicate HasWorker(s: State, w: nat) {
    w < WORKERS && w < |s.pcs|
  }

  /** The lock is available to a waiting thread: free, or poisoned and therefore refused at once. */
  predicate Available(l: Lock) {
    l.owner.None?
  }

  ghost predicate Enabled(s: State, l: Label) {
    match l
    case Tick(_) => true
    case Accept(_) => true
    case LockRecv(w) => HasWorker(s, w) && s.pcs[w].WantRecv? && Available(s.recv)
    case Take(w) => HasWorker(s, w) && s.pcs[w].InRecv? && s.queue != []
    case ParseLine(w, _) => HasWorker(s, w) && s.pcs[w].Parse? && s.pcs[w].id < |s.conns|
    case FindUser(w, _) => HasWorker(s, w) && s.pcs[w].LookUp? && s.pcs[w].id < |s.conns|
    case LockRate(w) => HasWorker(s, w) && s.pcs[w].WantRate? && Available(s.rate)
    case Decide(w) => HasWorker(s, w) && s.pcs[w].InRate? && s.pcs[w].id < |s.conns|
    case LockCam(w) => HasWorker(s, w) && s.pcs[w].WantCam? && Available(s.cam)
    case CheckPolicy(w, config, machine, verdict) =>
      HasWorker(s, w) && s.pcs[w].InCam?
      && (ConfiguredCamera(config).Device? ==> LegalPolicy(machine, ConfiguredCamera(config).path, verdict))
    case Recognise(w, child, answer) =>
      HasWorker(s, w) && s.pcs[w].Checked? && LegalAnswer(s.pcs[w].user, child, answer)
    case Send(w) => HasWorker(s, w) && s.pcs[w].Reply?
    case Panic(w) => HasWorker(s, w) && !s.pcs[w].Exited? && !s.pcs[w].WantRecv?
  }

  /** What a step does to a lock: `Break` is a drop during a panic. */
  datatype Grip = Keep | Grab | Drop | Break

  /** One step of a worker: where it goes, what it logs, what it does to the three locks, whether it
      dequeues a connection, how the one it served ends, and the attempt it records. */
  datatype Move = Move(pc: Pc, events: seq<Event>, recv: Grip, rate: Grip, cam: Grip, takes: bool,
                       ending: Option<Fate>, attempt: Option<Attempt>)

  function Goto(pc: Pc): Move {
    Move(pc, [], Keep, Keep, Keep, false, None, None)
  }

  function Refuse(id: nat, why: Refusal): Move {
    Goto(Reply(id, Error(Message(why)), None))
  }

  /** The refusal that ends a hold of the camera lock. */
  function RefuseInCam(w: nat, id: nat, why: Refusal): Move {
    Refuse(id, why).(cam := Drop, events := [CamFreed(w)])
  }

  /** `handle` up to the decision what kind of request this is. */
  function ParseMove(conn: Conn, id: nat, status: DaemonStatus): Move {
    match conn.line
    case None => Goto(WantRecv).(ending := Some(Finished))
    case Some(line) =>
      if !Complete(line) then Refuse(id, Incomplete)
      else
        match DecodeRequest(line)
        case Accepted(Ping) => Goto(Reply(id, Pong, None))
        case Accepted(Status) => Goto(Reply(id, Report(status), None))
        case Accepted(Authenticate(user, _)) => Goto(LookUp(id, user))
        case Rejected(error) => Refuse(id, Malformed(error))
  }

  function FindUserMove(conn: Conn, pc: Pc, now: nat, target: Option<nat>): Move
    requires pc.LookUp?
  {
    match target
    case None => Refuse(pc.id, UnknownUser)
    case Some(uid) =>
      if !MayAuthenticate(conn.uid, uid) then Refuse(pc.id, WrongPeer)
      else Goto(WantRate(pc.id, pc.user, Trail(now, 0, 0, 0))).(events := [LookedUp(pc.id, pc.user, uid)])
  }

  function DecideMove(last: Table, a: Attempt, pc: Pc, now: nat): Move
    requires pc.InRate?
  {
    var ok := Admits(last, a);
    (if ok then Goto(WantCam(pc.id, pc.user, pc.trail.(rate := now))) else Refuse(pc.id, RateLimited)).(
      rate := Drop, attempt := Some(a), events := [Tried(pc.id, a, ok)])
  }

  function PolicyMove(w: nat, pc: Pc, now: nat, config: Config, machine: Machine, verdict: Policy): Move
    requires pc.InCam?
  {
    match ConfiguredCamera(config)
    case Unconfigured => RefuseInCam(w, pc.id, NoCamera)
    case ConfigError => RefuseInCam(w, pc.id, CameraConfigError)
    case Device(path) =>
      match verdict
      case StrictDevice(d) =>
        Goto(Checked(pc.id, pc.user, pc.trail.(policy := now))).(events := [PolicyPassed(pc.id, config, machine, d)])
      case NotStrict => RefuseInCam(w, pc.id, NotStrictCamera)
      case PolicyError => RefuseInCam(w, pc.id, CameraPolicyError)
  }

  function RecogniseMove(w: nat, pc: Pc, now: nat, child: Option<Child>, answer: Verdict): Move
    requires pc.Checked? && (answer.Approve? ==> child.Some?)
  {
    match answer
    case Approve =>
      Goto(Reply(pc.id, Response.Ok(Granted()), Some(now))).(
        cam := Drop, events := [Approved(pc.id, pc.user, w, pc.trail, child.value), CamFreed(w)])
    case Deny => RefuseInCam(w, pc.id, Denied)
    case BackendError => RefuseInCam(w, pc.id, BackendFailed)
  }

  function PanicMove(w: nat, pc: Pc): Move {
    Move(Pc.Exited, if HoldsCam(pc) then [CamFreed(w)] else [],
         if pc.InRecv? then Break else Keep, if pc.InRate? then Break else Keep,
         if HoldsCam(pc) then Break else Keep,
         false, if Serving(pc) then Some(Lost) else None, None)
  }

  /** The worker a label belongs to. */
  function Worker(l: Label): Option<nat> {
    match l
    case Tick(_) => None
    case Accept(_) => None
    case _ => Some(l.w)
  }

  ghost function MoveOf(s: State, l: Label): (m: Move)
    requires Enabled(s, l) && Worker(l).Some?
    ensures m.takes ==> s.queue != []
    ensures m.ending.Some? ==> Serving(s.pcs[l.w])
  {
    var pc, now := s.pcs[l.w], |s.log|;
    match l
    case LockRecv(w) => if s.recv.poisoned then Goto(Pc.Exited) else Goto(InRecv).(recv := Grab)
    case Take(w) => Goto(Parse(s.queue[0])).(recv := Drop, takes := true)
    case ParseLine(w, status) => ParseMove(s.conns[pc.id], pc.id, status)
    case FindUser(w, target) => FindUserMove(s.conns[pc.id], pc, now, target)
    case LockRate(w) =>
      if s.rate.poisoned then Refuse(pc.id, RateLimited) else Goto(InRate(pc.id, pc.user, pc.trail)).(rate := Grab)
    case Decide(w) => DecideMove(s.last, Attempt(s.conns[pc.id].uid, s.clock), pc, now)
    case LockCam(w) =>
      if s.cam.poisoned then Refuse(pc.id, LockPoisoned)
      else Goto(InCam(pc.id, pc.user, pc.trail.(enter := now))).(cam := Grab, events := [CamTaken(w)])
    case CheckPolicy(w, config, machine, verdict) => PolicyMove(w, pc, now, config, machine, verdict)
    case Recognise(w, child, answer) => RecogniseMove(w, pc, now, child, answer)
    case Send(w) =>
      Goto(WantRecv).(ending := Some(Finished), events := [Answered(pc.id, pc.response, pc.approval)])
    case Panic(w) => PanicMove(w, pc)
  }

  function Shift(l: Lock, g: Grip, w: nat): Lock {
    match g
    case Keep => l
    case Grab => Lock(Some(w), l.poisoned)
    case Drop => Lock(None, l.poisoned)
    case Break => Lock(None, true)
  }

  function Settle(fate: seq<Fate>, id: nat, f: Fate): seq<Fate> {
    if id < |fate| then fate[id := f] else fate
  }

  function Apply(s: State, w: nat, m: Move): State
    requires HasWorker(s, w)
    requires m.takes ==> s.queue != []
    requires m.ending.Some? ==> Serving(s.pcs[w])
  {
    State(s.clock, s.conns,
          if m.takes then s.queue[1..] else s.queue,
          if m.takes then s.taken + [s.queue[0]] else s.taken,
          if m.takes then Settle(s.fate, s.queue[0], InService(w))
          else if m.ending.Some? then Settle(s.fate, s.pcs[w].id, m.ending.value)
          else s.fate,
          s.pcs[w := m.pc],
          Shift(s.recv, m.recv, w), Shift(s.rate, m.rate, w), Shift(s.cam, m.cam, w),
          if m.attempt.Some? then Record(s.last, m.attempt.value) else s.last,
          s.log + m.events)
  }

  function DoAccept(s: State, conn: Conn): State {
    var id := |s.conns|;
    var t := s.(conns := s.conns + [conn]);
    if |s.queue| < QUEUE then t.(queue := s.queue + [id], fate := s.fate + [Queued])
    else t.(fate := s.fate + [Dropped])
  }

  ghost function Do(s: State, l: Label): State
    requires Enabled(s, l)
  {
    match l
    case Tick(ms) => s.(clock := s.clock + ms)
    case Accept(conn) => DoAccept(s, conn)
    case _ => Apply(s, l.w, MoveOf(s, l))
  }

  // ---------------------------------------------------------------- runs

  /** The state after a sequence of labels, if each was enabled in its turn. */
  ghost function Exec(run: seq<Label>): Option<State> {
    if run == [] then Some(INIT)
    else
      match Exec(run[..|run| - 1])
      case None => None
      case Some(s) => if Enabled(s, run[|run| - 1]) then Some(Do(s, run[|run| - 1])) else None
  }
}
