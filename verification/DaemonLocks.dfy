// The lock discipline of the daemon: in every reachable state each mutex is held by exactly the
// worker whose program counter says so, and no holder waits for another mutex.
module DaemonLocks {
  import opened Text
  import opened Protocol
  import opened HowdyConfig
  import opened Hardware
  import opened RateLimit
  import opened Daemon

  ghost predicate LocksMatch(s: State) {
    && |s.pcs| == WORKERS
    && (forall w: nat :: s.recv.owner == Some(w) <==> w < WORKERS && s.pcs[w].InRecv?)
    && (forall w: nat :: s.rate.owner == Some(w) <==> w < WORKERS && s.pcs[w].InRate?)
    && (forall w: nat :: s.cam.owner == Some(w) <==> w < WORKERS && HoldsCam(s.pcs[w]))
    && (s.recv.poisoned ==> s.recv.owner.None?)
    && (s.rate.poisoned ==> s.rate.owner.None?)
    && (s.cam.poisoned ==> s.cam.owner.None?)
  }

  /** A worker grabs only a free lock, drops only one it has, and has it in between. */
  predicate Grips(l: Lock, g: Grip, before: bool, after: bool) {
    match g
    case Keep => before == after
    case Grab => l == FREE && !before && after
    case Drop => before && !after
    case Break => before && !after
  }

  lemma MoveGrips(s: State, l: Label)
    requires LocksMatch(s) && Enabled(s, l) && Worker(l).Some?
    ensures var pc, m := s.pcs[l.w], MoveOf(s, l);
            && Grips(s.recv, m.recv, pc.InRecv?, m.pc.InRecv?)
            && Grips(s.rate, m.rate, pc.InRate?, m.pc.InRate?)
            && Grips(s.cam, m.cam, HoldsCam(pc), HoldsCam(m.pc))
  {
    hide ConfiguredCamera, LegalPolicy, DecodeRequest, Complete, Admits, Message;
  }

  lemma ApplyKeepsLocks(s: State, w: nat, m: Move)
    requires LocksMatch(s) && w < WORKERS
    requires m.takes ==> s.queue != []
    requires m.ending.Some? ==> Serving(s.pcs[w])
    requires Grips(s.recv, m.recv, s.pcs[w].InRecv?, m.pc.InRecv?)
    requires Grips(s.rate, m.rate, s.pcs[w].InRate?, m.pc.InRate?)
    requires Grips(s.cam, m.cam, HoldsCam(s.pcs[w]), HoldsCam(m.pc))
    ensures LocksMatch(Apply(s, w, m))
  {
  }

  lemma LocksStep(s: State, l: Label)
    requires LocksMatch(s) && Enabled(s, l)
    ensures LocksMatch(Do(s, l))
  {
    if Worker(l).Some? {
      MoveGrips(s, l);
      hide MoveOf, Enabled, Apply;
      ApplyKeepsLocks(s, l.w, MoveOf(s, l));
    }
  }
}
