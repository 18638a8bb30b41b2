// The limiter inside the daemon: whatever the interleaving, the decisions in the log are those of
// the limiter on the attempts in lock order, and the clock never runs back between them.
module DaemonRates {
  import opened Protocol
  import opened HowdyConfig
  import opened Hardware
  import opened RateLimit
  import opened Daemon

  /** The attempts of a log, in the order in which they held the lock. */
  function Attempts(log: seq<Event>): seq<Attempt> {
    if log == [] then []
    else
      var e := log[|log| - 1];
      Attempts(log[..|log| - 1]) + if e.Tried? then [e.attempt] else []
  }

  /** The decisions one uid got, and the times at which it was admitted. */
  function Decisions(log: seq<Event>, uid: nat): seq<bool> {
    if log == [] then []
    else
      var e := log[|log| - 1];
      Decisions(log[..|log| - 1], uid) + if e.Tried? && e.attempt.uid == uid then [e.admitted] else []
  }

  function Admissions(log: seq<Event>, uid: nat): seq<nat> {
    if log == [] then []
    else
      var e := log[|log| - 1];
      Admissions(log[..|log| - 1], uid)
      + if e.Tried? && e.attempt.uid == uid && e.admitted then [e.attempt.at] else []
  }

  ghost predicate Decided(log: seq<Event>, k: nat)
    requires k < |log|
  {
    log[k].Tried? ==> log[k].admitted == Admits(TableOf(Attempts(log[..k])), log[k].attempt)
  }

  ghost predicate Dated(e: Event, conns: seq<Conn>, clock: nat) {
    e.Tried? ==> e.attempt.at <= clock && e.id < |conns| && e.attempt.uid == conns[e.id].uid
  }

  predicate InTime(a: Event, b: Event) {
    a.Tried? && b.Tried? ==> a.attempt.at <= b.attempt.at
  }

  ghost predicate Ordered(log: seq<Event>) {
    forall j, k :: 0 <= j < k < |log| ==> InTime(log[j], log[k])
  }

  ghost predicate AllDecided(log: seq<Event>) {
    forall k: nat :: k < |log| ==> Decided(log, k)
  }

  ghost predicate AllDated(log: seq<Event>, conns: seq<Conn>, clock: nat) {
    forall k: nat :: k < |log| ==> Dated(log[k], conns, clock)
  }

  ghost predicate RateKept(s: State) {
    && s.last == TableOf(Attempts(s.log))
    && AllDecided(s.log) && AllDated(s.log, s.conns, s.clock) && Ordered(s.log)
  }

  // ---------------------------------------------------------------- one step

  /** Only the step under the limiter's lock tries, with the clock of that moment. */
  ghost predicate Tries(m: Move, last: Table, conns: seq<Conn>, clock: nat) {
    match m.attempt
    case None => forall j :: 0 <= j < |m.events| ==> !m.events[j].Tried?
    case Some(a) =>
      |m.events| == 1 && m.events[0].Tried?
      && var e := m.events[0];
         e.attempt == a && e.admitted == Admits(last, a)
         && a.at == clock && e.id < |conns| && a.uid == conns[e.id].uid
  }

  lemma MoveTries(s: State, l: Label)
    requires Enabled(s, l) && Worker(l).Some?
    ensures Tries(MoveOf(s, l), s.last, s.conns, s.clock)
  {
    hide Complete, DecodeRequest, LegalPolicy, ConfiguredCamera, Admits, Message, MayAuthenticate;
  }

  lemma {:induction false} AttemptsConcat(a: seq<Event>, b: seq<Event>)
    ensures Attempts(a + b) == Attempts(a) + Attempts(b)
  {
    if b == [] {
      assert a + b == a;
    } else {
      assert (a + b)[..|a + b| - 1] == a + b[..|b| - 1];
      AttemptsConcat(a, b[..|b| - 1]);
    }
  }

  lemma {:induction false} NoAttempts(b: seq<Event>)
    requires forall j :: 0 <= j < |b| ==> !b[j].Tried?
    ensures Attempts(b) == []
  {
    if b != [] {
      NoAttempts(b[..|b| - 1]);
    }
  }

  lemma TableGrows(log: seq<Event>, m: Move, last: Table, conns: seq<Conn>, clock: nat)
    requires Tries(m, last, conns, clock) && last == TableOf(Attempts(log))
    ensures TableOf(Attempts(log + m.events)) == if m.attempt.Some? then Record(last, m.attempt.value) else last
  {
    AttemptsConcat(log, m.events);
    MoveAttempts(m, last, conns, clock);
    hide Attempts, Tries, Record;
    var h := Attempts(log) + Attempts(m.events);
    if m.attempt.Some? {
      assert h[..|h| - 1] == Attempts(log);
    } else {
      assert h == Attempts(log);
    }
  }

  lemma MoveAttempts(m: Move, last: Table, conns: seq<Conn>, clock: nat)
    requires Tries(m, last, conns, clock)
    ensures Attempts(m.events) == if m.attempt.Some? then [m.attempt.value] else []
  {
    hide Admits;
    if m.attempt.Some? {
      assert m.events[..0] == [];
    } else {
      NoAttempts(m.events);
    }
  }

  lemma DecisionsGrow(log: seq<Event>, m: Move, last: Table, conns: seq<Conn>, clock: nat)
    requires Tries(m, last, conns, clock) && last == TableOf(Attempts(log)) && AllDecided(log)
    ensures AllDecided(log + m.events)
  {
    hide Admits, Attempts, TableOf;
    var more := log + m.events;
    forall k: nat | k < |more| ensures Decided(more, k) {
      if k < |log| {
        assert Decided(log, k);
        assert more[..k] == log[..k];
      } else if m.attempt.Some? {
        assert more[..k] == log;
      }
    }
  }

  lemma DatesGrow(log: seq<Event>, m: Move, last: Table, conns: seq<Conn>, clock: nat)
    requires Tries(m, last, conns, clock) && AllDated(log, conns, clock) && Ordered(log)
    ensures AllDated(log + m.events, conns, clock) && Ordered(log + m.events)
  {
  }

  lemma LaterAndWider(log: seq<Event>, conns: seq<Conn>, clock: nat, more: seq<Conn>, later: nat)
    requires AllDated(log, conns, clock) && clock <= later
    ensures AllDated(log, conns + more, later)
  {
  }

  lemma RateStep(s: State, l: Label)
    requires RateKept(s) && Enabled(s, l)
    ensures RateKept(Do(s, l))
  {
    hide Attempts, TableOf, AllDecided, AllDated, Ordered, Record, Tries, MoveOf;
    if Worker(l).Some? {
      var m := MoveOf(s, l);
      MoveTries(s, l);
      TableGrows(s.log, m, s.last, s.conns, s.clock);
      DecisionsGrow(s.log, m, s.last, s.conns, s.clock);
      DatesGrow(s.log, m, s.last, s.conns, s.clock);
    } else if l.Accept? {
      LaterAndWider(s.log, s.conns, s.clock, [l.conn], s.clock);
    } else {
      assert s.conns + [] == s.conns;
      LaterAndWider(s.log, s.conns, s.clock, [], s.clock + l.ms);
    }
  }

  // ---------------------------------------------------------------- what the log says

  lemma {:induction false} LogMatches(log: seq<Event>, uid: nat)
    requires AllDecided(log)
    ensures Decisions(log, uid) == Verdicts(Attempts(log), uid)
    ensures Admissions(log, uid) == AdmittedTimes(Attempts(log), uid)
  {
    if log != [] {
      var front, e := log[..|log| - 1], log[|log| - 1];
      forall k: nat | k < |front| ensures Decided(front, k) {
        assert Decided(log, k);
        assert front[..k] == log[..k];
      }
      LogMatches(front, uid);
      assert Decided(log, |log| - 1);
      var h := Attempts(front) + if e.Tried? then [e.attempt] else [];
      if e.Tried? {
        assert h[..|h| - 1] == Attempts(front);
      } else {
        assert h == Attempts(front);
      }
    }
  }
}
