// Progress of the daemon: a bound on the steps a run can take for the connections it accepted, and
// the proof that work can always go on while a worker lives.
module DaemonProgress {
  import opened Text
  import opened Protocol
  import opened HowdyConfig
  import opened Hardware
  import opened RateLimit
  import opened Daemon
  import opened DaemonLocks
  import opened DaemonQueue
  import opened DaemonEvidence
  import opened DaemonOnce
  import opened DaemonRates
  import opened DaemonSafety
  import opened DaemonRuns

  // ---------------------------------------------------------------- steps are paid for

  /** The steps a worker may still take before it waits for the next connection. */
  function Rank(pc: Pc): nat {
    match pc
    case Parse(_) => 10
    case LookUp(_, _) => 9
    case WantRate(_, _, _) => 8
    case InRate(_, _, _) => 7
    case WantCam(_, _, _) => 6
    case InCam(_, _, _) => 5
    case Checked(_, _, _) => 4
    case Reply(_, _, _) => 3
    case WantRecv => 2
    case InRecv => 1
    case Exited => 0
  }

  function Ranks(pcs: seq<Pc>): nat {
    if pcs == [] then 0 else Rank(pcs[0]) + Ranks(pcs[1..])
  }

  /** The steps a state may still take without a new connection. */
  function Measure(s: State): nat {
    10 * |s.queue| + Ranks(s.pcs)
  }

  lemma {:induction false} RanksUpdate(pcs: seq<Pc>, w: nat, pc: Pc)
    requires w < |pcs|
    ensures Ranks(pcs[w := pc]) == Ranks(pcs) - Rank(pcs[w]) + Rank(pc)
  {
    if w == 0 {
      assert pcs[0 := pc][1..] == pcs[1..];
    } else {
      assert pcs[w := pc][1..] == pcs[1..][w - 1 := pc];
      RanksUpdate(pcs[1..], w - 1, pc);
    }
  }

  lemma MoveDescends(s: State, l: Label)
    requires Enabled(s, l) && Worker(l).Some?
    ensures var m := MoveOf(s, l); Rank(m.pc) < Rank(s.pcs[l.w]) + if m.takes then 10 else 0
  {
    hide Complete, DecodeRequest, LegalPolicy, ConfiguredCamera, Admits, Message, MayAuthenticate;
  }

  lemma StepDescends(s: State, l: Label)
    requires Enabled(s, l)
    ensures Measure(Do(s, l)) <= Measure(s) + if l.Accept? then 10 else 0
    ensures Worker(l).Some? ==> Measure(Do(s, l)) < Measure(s)
  {
    if Worker(l).Some? {
      MoveDescends(s, l);
      MoveIsOrderly(s, l);
      hide MoveOf, Rank, Ranks;
      RanksUpdate(s.pcs, l.w, MoveOf(s, l).pc);
    }
  }

  function Accepts(run: seq<Label>): nat {
    if run == [] then 0
    else Accepts(run[..|run| - 1]) + if run[|run| - 1].Accept? then 1 else 0
  }

  function WorkerSteps(run: seq<Label>): nat {
    if run == [] then 0
    else WorkerSteps(run[..|run| - 1]) + if Worker(run[|run| - 1]).Some? then 1 else 0
  }

  lemma InitMeasure()
    ensures Measure(INIT) == 8
  {
  }

  /** In every run the workers take at most ten steps a connection and eight more: no worker spins,
      whatever the interleaving, the answers of the outside and the panics. */
  lemma {:induction false} WorkBound(run: seq<Label>)
    requires Exec(run).Some?
    ensures WorkerSteps(run) + Measure(Exec(run).value) <= 10 * Accepts(run) + 8
  {
    hide Enabled, Do, Measure;
    if run == [] {
      InitMeasure();
    } else {
      WorkBound(run[..|run| - 1]);
      StepDescends(Exec(run[..|run| - 1]).value, run[|run| - 1]);
    }
  }

  // ---------------------------------------------------------------- some step is always there

  ghost predicate Live(s: State) {
    exists w: nat :: w < |s.pcs| && !s.pcs[w].Exited?
  }

  /** A connection is queued or in service. */
  ghost predicate Unsettled(s: State) {
    exists id: nat :: id < |s.fate| && !s.fate[id].Dropped? && !Over(s.fate[id])
  }

  /** A step of a worker that is not a panic. */
  predicate Works(l: Label) {
    Worker(l).Some? && !l.Panic?
  }

  lemma HolderCanMove(s: State, w: nat) returns (l: Label)
    requires LocksMatch(s) && Places(s) && Posts(s) && w < WORKERS
    requires s.pcs[w].InRate? || HoldsCam(s.pcs[w])
    ensures Works(l) && Enabled(s, l)
  {
    hide Places;
    if s.pcs[w].InRate? {
      l := Decide(w);
    } else if s.pcs[w].InCam? {
      l := CheckPolicy(w, Missing, Machine(map[], None, map[], None), PolicyError);
    } else {
      l := Recognise(w, None, BackendError);
    }
    assert |s.fate| == |s.conns| by {
      PlacesMatch(s);
    }
  }

  lemma PlacesMatch(s: State)
    requires Places(s)
    ensures |s.fate| == |s.conns|
  {
  }

  lemma ServerCanMove(s: State, w: nat) returns (l: Label)
    requires LocksMatch(s) && Places(s) && Posts(s) && w < WORKERS && Serving(s.pcs[w])
    ensures Works(l) && Enabled(s, l)
  {
    PlacesMatch(s);
    hide Places, LegalPolicy;
    match s.pcs[w] {
      case Parse(_) => l := ParseLine(w, DaemonStatus("", 0, false));
      case LookUp(_, _) => l := FindUser(w, None);
      case WantRate(_, _, _) =>
        if s.rate.owner.Some? {
          assert s.pcs[s.rate.owner.value].InRate?;
          hide Enabled, Posts;
          l := HolderCanMove(s, s.rate.owner.value);
        } else {
          l := LockRate(w);
        }
      case WantCam(_, _, _) =>
        if s.cam.owner.Some? {
          assert HoldsCam(s.pcs[s.cam.owner.value]);
          hide Enabled, Posts;
          l := HolderCanMove(s, s.cam.owner.value);
        } else {
          l := LockCam(w);
        }
      case Reply(_, _, _) => l := Send(w);
      case _ =>
        hide Enabled, Posts;
        l := HolderCanMove(s, w);
    }
  }

  lemma QueueCanMove(s: State, w: nat) returns (l: Label)
    requires LocksMatch(s) && s.queue != [] && w < WORKERS
    requires s.pcs[w].WantRecv? || s.pcs[w].InRecv?
    ensures Works(l) && Enabled(s, l)
  {
    if s.pcs[w].InRecv? {
      l := Take(w);
    } else if s.recv.owner.Some? {
      l := Take(s.recv.owner.value);
    } else {
      l := LockRecv(w);
    }
  }

  /** While a worker lives and a connection is queued or in service, some worker can make a step
      that is not a panic, for whatever the others hold. */
  lemma NeverStuck(run: seq<Label>) returns (l: Label)
    requires Exec(run).Some? && Live(Exec(run).value) && Unsettled(Exec(run).value)
    ensures Works(l) && Enabled(Exec(run).value, l)
  {
    Reachable(run);
    hide Exec, AllBacked, Once, RateKept, Enabled;
    var s := Exec(run).value;
    var w: nat :| w < |s.pcs| && !s.pcs[w].Exited?;
    var id: nat :| id < |s.fate| && !s.fate[id].Dropped? && !Over(s.fate[id]);
    if s.fate[id].InService? {
      l := ServerCanMove(s, s.fate[id].worker);
    } else {
      assert s.fate[id].Queued? && id in s.queue;
      if Serving(s.pcs[w]) {
        l := ServerCanMove(s, w);
      } else {
        l := QueueCanMove(s, w);
      }
    }
  }

  // ---------------------------------------------------------------- every connection is settled

  lemma WorkKeepsLive(s: State, l: Label)
    requires Enabled(s, l) && Works(l) && Live(s) && !s.recv.poisoned
    ensures Live(Do(s, l)) && !Do(s, l).recv.poisoned
  {
    MoveKeepsWorker(s, l);
    hide MoveOf;
    assert !Do(s, l).pcs[l.w].Exited?;
  }

  lemma MoveKeepsWorker(s: State, l: Label)
    requires Enabled(s, l) && Works(l) && !s.recv.poisoned
    ensures !MoveOf(s, l).pc.Exited? && !MoveOf(s, l).recv.Break?
  {
    hide Complete, DecodeRequest, LegalPolicy, ConfiguredCamera, Admits, Message, MayAuthenticate;
  }

  /** From every reachable state with a live worker, whatever it holds, letting the workers go on
      without panics and without new connections settles every connection: none is stranded. Only
      a panic under the receiver's lock can prevent it. */
  lemma {:induction false} AllGetSettled(run: seq<Label>) returns (more: seq<Label>)
    requires Exec(run).Some? && Live(Exec(run).value) && !Exec(run).value.recv.poisoned
    ensures Exec(run + more).Some? && !Unsettled(Exec(run + more).value)
    ensures forall i :: 0 <= i < |more| ==> Works(more[i])
    decreases Measure(Exec(run).value)
  {
    hide Live, Unsettled, Measure, Enabled, Do;
    if Unsettled(Exec(run).value) {
      var l := NeverStuck(run);
      StepDescends(Exec(run).value, l);
      WorkKeepsLive(Exec(run).value, l);
      assert (run + [l])[..|run + [l]| - 1] == run;
      var rest := AllGetSettled(run + [l]);
      more := [l] + rest;
      assert run + more == run + [l] + rest;
    } else {
      more := [];
      assert run + more == run;
    }
  }
}
