// No success is shared: the backend approves a connection at most once, and each connection is
// answered at most once.
module DaemonOnce {
  import opened Text
  import opened Protocol
  import opened HowdyConfig
  import opened Hardware
  import opened RateLimit
  import opened Backend
  import opened Daemon
  import opened DaemonQueue
  import opened DaemonEvidence

  /** Where the connection of an approval or of an answer now is. */
  ghost predicate Placed(e: Event, k: nat, fate: seq<Fate>, pcs: seq<Pc>) {
    match e
    case Approved(id, _, _, _, _) =>
      id < |fate|
      && match fate[id] {
           case InService(w) => w < |pcs| && pcs[w].Reply? && pcs[w].id == id && pcs[w].approval == Some(k)
           case Finished => true
           case Lost => true
           case _ => false
         }
    case Answered(id, _, _) => id < |fate| && fate[id].Finished?
    case _ => true
  }

  /** Two approvals, or two answers, are of different connections. */
  predicate Apart(a: Event, b: Event) {
    (a.Approved? && b.Approved?) || (a.Answered? && b.Answered?) ==> a.id != b.id
  }

  ghost predicate Once(s: State) {
    && (forall k: nat :: k < |s.log| ==> Placed(s.log[k], k, s.fate, s.pcs))
    && (forall j, k :: 0 <= j < k < |s.log| ==> Apart(s.log[j], s.log[k]))
  }

  lemma OldStaysPlaced(s: State, w: nat, m: Move, k: nat)
    requires Places(s) && Posts(s) && w < WORKERS && k < |s.log| && Placed(s.log[k], k, s.fate, s.pcs)
    requires Orderly(s.pcs[w], m, s.queue) && Speaks(s.pcs[w], w, m, |s.log|)
    ensures var t := Apply(s, w, m); Placed(s.log[k], k, t.fate, t.pcs)
  {
  }

  lemma NewIsPlaced(s: State, w: nat, m: Move, j: nat)
    requires Places(s) && Posts(s) && w < WORKERS && j < |m.events|
    requires Orderly(s.pcs[w], m, s.queue) && Speaks(s.pcs[w], w, m, |s.log|)
    ensures var t := Apply(s, w, m); Placed(m.events[j], |s.log| + j, t.fate, t.pcs)
  {
  }

  /** An approval or answer is new for its connection. */
  lemma NewIsFirst(s: State, w: nat, m: Move, j: nat, k: nat)
    requires Posts(s) && Once(s) && w < WORKERS && j < |m.events| && k < |s.log|
    requires Speaks(s.pcs[w], w, m, |s.log|)
    ensures Apart(s.log[k], m.events[j])
  {
  }

  lemma ApplyKeepsOnce(s: State, w: nat, m: Move)
    requires Places(s) && Posts(s) && Once(s) && w < WORKERS
    requires Orderly(s.pcs[w], m, s.queue) && Speaks(s.pcs[w], w, m, |s.log|)
    ensures Once(Apply(s, w, m))
  {
    var t := Apply(s, w, m);
    hide Places, Posts, Orderly, Placed;
    forall k: nat | k < |t.log| ensures Placed(t.log[k], k, t.fate, t.pcs) {
      hide Speaks;
      if k < |s.log| {
        OldStaysPlaced(s, w, m, k);
      } else {
        NewIsPlaced(s, w, m, k - |s.log|);
      }
    }
    forall j, k | 0 <= j < k < |t.log| ensures Apart(t.log[j], t.log[k]) {
      hide Apart, Speaks;
      if k < |s.log| {
        assert t.log[j] == s.log[j] && t.log[k] == s.log[k];
        OldApart(s, j, k);
      } else if j < |s.log| {
        NewIsFirst(s, w, m, k - |s.log|, j);
      } else {
        OnlyOne(s.pcs[w], w, m, |s.log|, j - |s.log|, k - |s.log|);
      }
    }
  }

  lemma OldApart(s: State, j: nat, k: nat)
    requires Once(s) && j < k < |s.log|
    ensures Apart(s.log[j], s.log[k])
  {
  }

  lemma OnlyOne(pc: Pc, w: nat, m: Move, now: nat, j: nat, k: nat)
    requires Speaks(pc, w, m, now) && j < k < |m.events|
    ensures Apart(m.events[j], m.events[k])
  {
  }

  lemma AcceptKeepsOnce(s: State, conn: Conn)
    requires Places(s) && Posts(s) && Once(s)
    ensures Once(DoAccept(s, conn))
  {
  }

  lemma OnceStep(s: State, l: Label)
    requires Places(s) && Posts(s) && Once(s) && Enabled(s, l)
    ensures Once(Do(s, l))
  {
    hide Places, Posts, Once, Orderly, Speaks, MoveOf, Apply, DoAccept, Enabled;
    if Worker(l).Some? {
      MoveIsOrderly(s, l);
      MoveSpeaks(s, l);
      EnabledHasWorker(s, l);
      ApplyKeepsOnce(s, l.w, MoveOf(s, l));
    } else if l.Accept? {
      AcceptKeepsOnce(s, l.conn);
    } else {
      TickKeepsOnce(s, l);
    }
  }

  lemma EnabledHasWorker(s: State, l: Label)
    requires Enabled(s, l) && Worker(l).Some?
    ensures l.w < WORKERS && l.w < |s.pcs|
  {
  }

  lemma TickKeepsOnce(s: State, l: Label)
    requires Once(s) && l.Tick?
    ensures Once(Do(s, l))
  {
  }

  // ---------------------------------------------------------------- finished connections

  /** The log has an answer to the connection. */
  ghost predicate HasAnswer(log: seq<Event>, id: nat) {
    exists k: nat :: k < |log| && log[k].Answered? && log[k].id == id
  }

  /** A finished connection was answered, or no line could be read from it. */
  ghost predicate Closed(s: State) {
    |s.fate| == |s.conns|
    && forall id: nat :: id < |s.fate| && s.fate[id].Finished? ==> s.conns[id].line.None? || HasAnswer(s.log, id)
  }

  ghost predicate Closes(pc: Pc, m: Move, conns: seq<Conn>) {
    m.ending == Some(Finished) ==>
      && Serving(pc)
      && ((pc.id < |conns| && conns[pc.id].line.None?)
          || (m.events != [] && m.events[0].Answered? && m.events[0].id == pc.id))
  }

  lemma MoveCloses(s: State, l: Label)
    requires Enabled(s, l) && Worker(l).Some?
    ensures Closes(s.pcs[l.w], MoveOf(s, l), s.conns)
  {
    hide Complete, DecodeRequest, LegalPolicy, ConfiguredCamera, Admits, Message, MayAuthenticate, Approvable, Sleeps;
  }

  lemma ApplyKeepsClosed(s: State, w: nat, m: Move)
    requires Closed(s) && HasWorker(s, w) && Closes(s.pcs[w], m, s.conns)
    requires m.takes ==> s.queue != []
    requires m.ending.Some? ==> Serving(s.pcs[w])
    ensures Closed(Apply(s, w, m))
  {
    var t := Apply(s, w, m);
    forall id: nat | id < |s.fate| && HasAnswer(s.log, id) ensures HasAnswer(t.log, id) {
      var k: nat :| k < |s.log| && s.log[k].Answered? && s.log[k].id == id;
      assert t.log[k] == s.log[k];
    }
    if m.events != [] && m.events[0].Answered? {
      assert t.log[|s.log|] == m.events[0];
    }
  }

  lemma ClosedStep(s: State, l: Label)
    requires Closed(s) && Enabled(s, l)
    ensures Closed(Do(s, l))
  {
    if Worker(l).Some? {
      MoveCloses(s, l);
      hide MoveOf, Apply, Closes, Closed;
      ApplyKeepsClosed(s, l.w, MoveOf(s, l));
    } else {
      hide HasAnswer;
    }
  }
}
