// What holds in every reachable state of the daemon, and over whole runs.
module DaemonSafety {
  import opened RateLimit
  import opened Backend
  import opened Daemon
  import opened DaemonLocks
  import opened DaemonQueue
  import opened DaemonEvidence
  import opened DaemonOnce
  import opened DaemonRates

  ghost predicate Inv(s: State) {
    LocksMatch(s) && Places(s) && Posts(s) && AllBacked(s) && Once(s) && Closed(s) && RateKept(s)
  }

  lemma InitKeeps()
    ensures Inv(INIT)
  {
    NobodyServes();
    NothingLogged();
    hide LocksMatch, Places, Posts, AllBacked, Once, Closed, RateKept, INIT;
  }

  lemma NobodyServes()
    ensures LocksMatch(INIT) && Places(INIT) && Posts(INIT)
  {
    hide IdleWorkers;
    assert INIT.taken + INIT.queue == [];
  }

  lemma NothingLogged()
    ensures AllBacked(INIT) && Once(INIT) && Closed(INIT) && RateKept(INIT)
  {
    hide EventBacked, Placed, Decided, Dated;
  }

  lemma StepKeeps(s: State, l: Label)
    requires Inv(s) && Enabled(s, l)
    ensures Inv(Do(s, l))
  {
    hide LocksMatch, Places, Posts, AllBacked, Once, Closed, RateKept, Enabled, Do;
    LocksStep(s, l);
    QueueStep(s, l);
    BackedStep(s, l);
    OnceStep(s, l);
    ClosedStep(s, l);
    RateStep(s, l);
  }

  lemma {:induction false} Reachable(run: seq<Label>)
    requires Exec(run).Some?
    ensures Inv(Exec(run).value)
  {
    hide Inv, Enabled, Do;
    if run == [] {
      InitKeeps();
    } else {
      Reachable(run[..|run| - 1]);
      StepKeeps(Exec(run[..|run| - 1]).value, run[|run| - 1]);
    }
  }

  // ---------------------------------------------------------------- locks

  datatype Mutex = Receiver | Limiter | Camera

  predicate Holds(pc: Pc, m: Mutex) {
    match m
    case Receiver => pc.InRecv?
    case Limiter => pc.InRate?
    case Camera => HoldsCam(pc)
  }

  predicate Waits(pc: Pc, m: Mutex) {
    match m
    case Receiver => pc.WantRecv?
    case Limiter => pc.WantRate?
    case Camera => pc.WantCam?
  }

  /** Worker `a` waits for a mutex that worker `b` holds. */
  ghost predicate Blocks(s: State, b: nat, a: nat) {
    a < |s.pcs| && b < |s.pcs| && exists m :: Waits(s.pcs[a], m) && Holds(s.pcs[b], m)
  }

  /** Mutual exclusion: each mutex has at most one holder, so at most one worker is ever in the
      recognition section. That no wait closes a cycle needs no run: no `Pc` both holds and waits,
      because no worker takes a lock under another. That nobody waits forever is `NeverStuck`. */
  lemma LockDiscipline(run: seq<Label>, a: nat, b: nat, c: nat, m: Mutex)
    requires Exec(run).Some? && a < WORKERS && b < WORKERS
    ensures var s := Exec(run).value;
            && |s.pcs| == WORKERS
            && (Holds(s.pcs[a], m) && Holds(s.pcs[b], m) ==> a == b)
            && !(Blocks(s, a, b) && Blocks(s, c, a))
  {
    Reachable(run);
    hide Places, Posts, AllBacked, Once, RateKept, Exec;
  }

  // ---------------------------------------------------------------- conservation

  lemma {:induction false} SmallSet<T>(a: set<T>, b: set<T>)
    requires a <= b
    ensures |a| <= |b|
  {
    if a != {} {
      var x :| x in a;
      SmallSet(a - {x}, b - {x});
    }
  }

  /** In every run each accepted stream is in exactly one place, at most 16 are queued and at most
      four in service; streams are taken in arrival order, each at most once. A stream in service is
      the one its worker serves, and a finished one was answered unless no line could be read. */
  lemma Conservation(run: seq<Label>)
    requires Exec(run).Some?
    ensures var s := Exec(run).value;
            && |s.fate| == |s.conns| && |s.pcs| == WORKERS
            && (forall id: nat :: id < |s.fate| && s.fate[id].Queued? <==> id in s.queue)
            && (forall id: nat :: id < |s.fate| && Started(s.fate[id]) <==> id in s.taken)
            && Ascending(s.taken + s.queue) && |s.queue| <= 16
            && |set id | 0 <= id < |s.fate| && s.fate[id].InService?| <= 4
            && (forall id: nat, w: nat :: id < |s.fate| && s.fate[id] == InService(w)
                  <==> w < WORKERS && Serving(s.pcs[w]) && s.pcs[w].id == id)
            && (forall id: nat :: id < |s.fate| && s.fate[id].Finished? ==>
                  s.conns[id].line.None? || HasAnswer(s.log, id))
            && (forall id: nat :: HasAnswer(s.log, id) ==> id < |s.fate| && s.fate[id].Finished?)
  {
    Reachable(run);
    hide LocksMatch, AllBacked, RateKept, Exec;
    var s := Exec(run).value;
    InServiceIsSmall(s);
    forall id: nat | HasAnswer(s.log, id) ensures id < |s.fate| && s.fate[id].Finished? {
      var k: nat :| k < |s.log| && s.log[k].Answered? && s.log[k].id == id;
      assert Placed(s.log[k], k, s.fate, s.pcs);
    }
    hide Once;
  }

  lemma InServiceIsSmall(s: State)
    requires Posts(s)
    ensures |set id | 0 <= id < |s.fate| && s.fate[id].InService?| <= WORKERS
  {
    var served := set id | 0 <= id < |s.fate| && s.fate[id].InService?;
    var posts := set w | 0 <= w < WORKERS && Serving(s.pcs[w]) :: s.pcs[w].id;
    forall id | id in served ensures id in posts {
      assert s.pcs[s.fate[id].worker].id == id;
    }
    SmallSet(served, posts);
    PostsAreFew(s.pcs);
  }

  lemma PostsAreFew(pcs: seq<Pc>)
    requires |pcs| == WORKERS
    ensures |set w | 0 <= w < WORKERS && Serving(pcs[w]) :: pcs[w].id| <= WORKERS
  {
    var posts := set w | 0 <= w < WORKERS && Serving(pcs[w]) :: pcs[w].id;
    var id := (w: nat) requires w < WORKERS => if Serving(pcs[w]) then pcs[w].id else 0;
    SmallSet(posts, {id(0), id(1), id(2), id(3)});
  }

  // ---------------------------------------------------------------- safety of an OK

  /** Entry `k` approves the request of connection `id`, and that was earned: the admission among
      its checks is the limiter's verdict on the attempts before it. */
  ghost predicate Justified(s: State, k: nat, id: nat) {
    && k < |s.log| && s.log[k].Approved? && s.log[k].id == id && id < |s.conns|
    && Earned(s.log[..k], s.conns, id, s.log[k].user, s.log[k].worker, s.log[k].trail)
    && Decided(s.log, s.log[k].trail.rate) && Sleeps(s.log[k].child) && Approvable(s.log[k].user, s.log[k].child)
  }

  /** An OK is only ever answered for a request of that connection that passed the user lookup, the
      peer-uid rule and the limiter, and then, under one hold of the camera lock, the strict-camera
      check and the backend, whose child was seen to exit successfully in time. */
  lemma OkIsEarned(run: seq<Label>, k: nat)
    requires Exec(run).Some? && k < |Exec(run).value.log|
    requires Exec(run).value.log[k].Answered? && Exec(run).value.log[k].response.Ok?
    ensures var s := Exec(run).value; var e := s.log[k];
            e.approval.Some? && e.approval.value < k && Justified(s, e.approval.value, e.id)
  {
    Reachable(run);
    hide LocksMatch, Places, Posts, Once, Exec, TenureAt, PolicyAt, Asked, Decided, Sleeps, Approvable,
         AllDated, Ordered, Attempts, TableOf;
    var s := Exec(run).value;
    assert EventBacked(s.log, k, s.conns);
    var a := s.log[k].approval.value;
    assert EventBacked(s.log, a, s.conns);
  }

  /** No success is cached or shared: each connection is answered at most once, approved at most
      once, and different OKs stand on different approvals. */
  lemma OksAreDistinct(run: seq<Label>, j: nat, k: nat)
    requires Exec(run).Some? && j < k < |Exec(run).value.log|
    requires Exec(run).value.log[j].Answered? && Exec(run).value.log[k].Answered?
    ensures var a, b := Exec(run).value.log[j], Exec(run).value.log[k];
            a.id != b.id && (a.approval.Some? && b.approval.Some? ==> a.approval != b.approval)
  {
    Reachable(run);
    hide LocksMatch, Places, Posts, RateKept, Exec, Earned;
    var s := Exec(run).value;
    assert Apart(s.log[j], s.log[k]);
    assert EventBacked(s.log, j, s.conns) && EventBacked(s.log, k, s.conns);
  }

  // ---------------------------------------------------------------- the limiter over runs

  /** In every concurrent run and every window of `length` ms a uid is admitted at most
      length/500 + 1 times. */
  lemma WindowBoundOverRuns(run: seq<Label>, uid: nat, from: nat, length: nat)
    requires Exec(run).Some?
    ensures |Within(Admissions(Exec(run).value.log, uid), from, length)| <= length / 500 + 1
  {
    Reachable(run);
    hide LocksMatch, Places, Posts, AllBacked, Once, Exec;
    LogMatches(Exec(run).value.log, uid);
    WindowBound(Attempts(Exec(run).value.log), uid, from, length);
  }

  /** The decisions a uid gets are those it would get if no other uid had ever asked. */
  lemma DecisionsAreOwn(run: seq<Label>, uid: nat)
    requires Exec(run).Some?
    ensures var log := Exec(run).value.log;
            Decisions(log, uid) == Verdicts(OnlyOf(Attempts(log), uid), uid)
  {
    Reachable(run);
    hide LocksMatch, Places, Posts, AllBacked, Once, Exec;
    LogMatches(Exec(run).value.log, uid);
    OthersDoNotMatter(Attempts(Exec(run).value.log), uid);
  }

  /** The map of the limiter holds each uid's last admission in the log and nothing else. */
  lemma TableIsLastAdmission(run: seq<Label>, uid: nat)
    requires Exec(run).Some?
    ensures var s := Exec(run).value; var times := Admissions(s.log, uid);
            && (uid in s.last <==> times != [])
            && (times != [] ==> s.last[uid] == times[|times| - 1] <= s.clock)
  {
    Reachable(run);
    hide LocksMatch, Places, Posts, AllBacked, Once, Exec;
    var s := Exec(run).value;
    LogMatches(s.log, uid);
    TableHoldsLastAdmission(Attempts(s.log), uid);
    AdmissionsInPast(s.log, uid, s.conns, s.clock);
  }

  lemma {:induction false} AdmissionsInPast(log: seq<Event>, uid: nat, conns: seq<Conn>, clock: nat)
    requires AllDated(log, conns, clock)
    ensures forall i :: 0 <= i < |Admissions(log, uid)| ==> Admissions(log, uid)[i] <= clock
  {
    if log != [] {
      var front := log[..|log| - 1];
      forall k: nat | k < |front| ensures Dated(front[k], conns, clock) {
        assert Dated(log[k], conns, clock);
      }
      AdmissionsInPast(front, uid, conns, clock);
      assert Dated(log[|log| - 1], conns, clock);
    }
  }
}
