// What later steps of a run can and cannot do: the log and the order of service only grow, a
// connection's fate only moves forward, and a poisoned lock stays so.
module DaemonRuns {
  import opened Protocol
  import opened HowdyConfig
  import opened Hardware
  import opened RateLimit
  import opened Daemon
  import opened DaemonLocks
  import opened DaemonQueue
  import opened DaemonEvidence
  import opened DaemonOnce
  import opened DaemonRates
  import opened DaemonSafety

  predicate Over(f: Fate) {
    f.Finished? || f.Lost?
  }

  /** A queued connection may be taken, a served one may end; nothing else changes. */
  predicate Follows(a: Fate, b: Fate) {
    a == b || (a.Queued? && Started(b)) || (a.InService? && Over(b))
  }

  ghost predicate FatesFollow(s: State, t: State) {
    |s.fate| <= |t.fate| && forall id: nat :: id < |s.fate| ==> Follows(s.fate[id], t.fate[id])
  }

  /** Entry `e`, logged after state `s`, respects what `s` has settled. */
  ghost predicate Fresh(e: Event, s: State) {
    && (e.Approved? ==> !s.cam.poisoned)
    && (e.Tried? ==> !s.rate.poisoned)
    && (e.Answered? && e.id < |s.fate| ==> !Over(s.fate[e.id]))
  }

  ghost predicate Extends(s: State, t: State) {
    && s.log <= t.log && s.taken <= t.taken && s.conns <= t.conns && FatesFollow(s, t)
    && (s.cam.poisoned ==> t.cam.poisoned) && (s.rate.poisoned ==> t.rate.poisoned)
    && (forall k: nat :: |s.log| <= k < |t.log| ==> Fresh(t.log[k], s))
  }

  lemma ExtendsTransitive(s: State, t: State, u: State)
    requires Extends(s, t) && Extends(t, u)
    ensures Extends(s, u)
  {
  }

  /** Attempts and approvals need the lock that a poisoned state does not give. */
  lemma MoveIsGuarded(s: State, l: Label)
    requires Enabled(s, l) && Worker(l).Some?
    ensures forall j :: 0 <= j < |MoveOf(s, l).events| && MoveOf(s, l).events[j].Tried? ==> s.pcs[l.w].InRate?
  {
    hide Complete, DecodeRequest, LegalPolicy, ConfiguredCamera, Admits, Message, MayAuthenticate;
  }

  lemma ApplyFates(s: State, w: nat, m: Move)
    requires Places(s) && Posts(s) && w < WORKERS && Orderly(s.pcs[w], m, s.queue)
    ensures FatesFollow(s, Apply(s, w, m))
  {
  }

  lemma ApplyExtends(s: State, w: nat, m: Move)
    requires LocksMatch(s) && Places(s) && Posts(s) && w < WORKERS
    requires Orderly(s.pcs[w], m, s.queue) && Speaks(s.pcs[w], w, m, |s.log|)
    requires m.cam.Grab? ==> !s.cam.poisoned
    requires m.rate.Grab? ==> !s.rate.poisoned
    requires forall j :: 0 <= j < |m.events| && m.events[j].Tried? ==> s.pcs[w].InRate?
    ensures Extends(s, Apply(s, w, m))
  {
    ApplyFates(s, w, m);
    hide FatesFollow, Places, Posts, Orderly;
  }

  lemma StepExtends(s: State, l: Label)
    requires LocksMatch(s) && Places(s) && Posts(s) && Enabled(s, l)
    ensures Extends(s, Do(s, l))
  {
    if Worker(l).Some? {
      MoveIsOrderly(s, l);
      MoveSpeaks(s, l);
      MoveGrips(s, l);
      MoveIsGuarded(s, l);
      hide MoveOf, Apply, Speaks, Orderly, Places, Posts, LocksMatch, Extends;
      ApplyExtends(s, l.w, MoveOf(s, l));
    }
  }

  lemma {:induction false} RunExtends(run: seq<Label>, more: seq<Label>)
    requires Exec(run + more).Some?
    ensures Exec(run).Some? && Extends(Exec(run).value, Exec(run + more).value)
  {
    hide Enabled, Do, Extends, LocksMatch, Places, Posts, AllBacked, Once, RateKept;
    if more == [] {
      assert run + more == run;
      NothingChanges(Exec(run).value);
    } else {
      var front := run + more[..|more| - 1];
      assert (run + more)[..|run + more| - 1] == front;
      RunExtends(run, more[..|more| - 1]);
      Reachable(front);
      StepExtends(Exec(front).value, more[|more| - 1]);
      ExtendsTransitive(Exec(run).value, Exec(front).value, Exec(run + more).value);
    }
  }

  lemma NothingChanges(s: State)
    ensures Extends(s, s)
  {
  }

  // ---------------------------------------------------------------- over runs

  /** A stream that was dropped, finished or lost stays so, and streams are taken in one order for
      the whole run. */
  lemma FatesAreFinal(run: seq<Label>, more: seq<Label>, id: nat)
    requires Exec(run + more).Some?
    ensures Exec(run).Some?
    ensures var s, t := Exec(run).value, Exec(run + more).value;
            && s.taken <= t.taken && |s.fate| <= |t.fate|
            && (id < |s.fate| ==> Follows(s.fate[id], t.fate[id]))
            && (id < |s.fate| && (s.fate[id].Dropped? || Over(s.fate[id])) ==> t.fate[id] == s.fate[id])
  {
    RunExtends(run, more);
    hide Exec;
  }

  /** Once the camera lock is poisoned the backend approves nothing more. */
  lemma NoApprovalAfterPoison(run: seq<Label>, more: seq<Label>, k: nat)
    requires Exec(run + more).Some? && Exec(run).Some? && Exec(run).value.cam.poisoned
    requires |Exec(run).value.log| <= k < |Exec(run + more).value.log|
    ensures !Exec(run + more).value.log[k].Approved?
  {
    RunExtends(run, more);
    hide Exec;
    assert Fresh(Exec(run + more).value.log[k], Exec(run).value);
  }

  /** Once the limiter's lock is poisoned nobody is admitted any more. */
  lemma NoAdmissionAfterPoison(run: seq<Label>, more: seq<Label>, k: nat)
    requires Exec(run + more).Some? && Exec(run).Some? && Exec(run).value.rate.poisoned
    requires |Exec(run).value.log| <= k < |Exec(run + more).value.log|
    ensures !Exec(run + more).value.log[k].Tried?
  {
    RunExtends(run, more);
    hide Exec;
    assert Fresh(Exec(run + more).value.log[k], Exec(run).value);
  }

  /** The connection has an approved answer that has not been sent yet. */
  ghost predicate Pending(s: State, id: nat) {
    exists w: nat :: w < |s.pcs| && s.pcs[w].Reply? && s.pcs[w].id == id && s.pcs[w].response.Ok?
  }

  ghost predicate AnswersOk(s: State, from: nat, id: nat) {
    exists k: nat :: from <= k < |s.log| && s.log[k].Answered? && s.log[k].id == id && s.log[k].response.Ok?
  }

  lemma OnlyPendingAnswered(run: seq<Label>, more: seq<Label>, id: nat)
    requires Exec(run + more).Some? && Exec(run).Some? && Exec(run).value.cam.poisoned
    requires AnswersOk(Exec(run + more).value, |Exec(run).value.log|, id)
    ensures Pending(Exec(run).value, id)
  {
    RunExtends(run, more);
    Reachable(run);
    Reachable(run + more);
    hide Exec, Earned, LocksMatch, RateKept;
    var s, t := Exec(run).value, Exec(run + more).value;
    var k: nat :| |s.log| <= k < |t.log| && t.log[k].Answered? && t.log[k].id == id && t.log[k].response.Ok?;
    assert EventBacked(t.log, k, t.conns) && Fresh(t.log[k], s);
    var a := t.log[k].approval.value;
    ApprovedBefore(s, t, a);
    hide Extends;
    WaitsToBeSent(s, id, a);
  }

  lemma ApprovedBefore(s: State, t: State, a: nat)
    requires Extends(s, t) && s.cam.poisoned && a < |t.log| && t.log[a].Approved?
    ensures a < |s.log| && s.log[a] == t.log[a]
  {
  }

  lemma WaitsToBeSent(s: State, id: nat, a: nat)
    requires Posts(s) && AllBacked(s) && Once(s) && ApprovalAt(s.log, id, a)
    requires id < |s.fate| && !Over(s.fate[id])
    ensures Pending(s, id)
  {
  }

  lemma PendingCanBeAnswered(run: seq<Label>, id: nat) returns (more: seq<Label>)
    requires Exec(run).Some? && Pending(Exec(run).value, id)
    ensures Exec(run + more).Some? && AnswersOk(Exec(run + more).value, |Exec(run).value.log|, id)
  {
    Reachable(run);
    var s := Exec(run).value;
    var w: nat :| w < |s.pcs| && s.pcs[w].Reply? && s.pcs[w].id == id && s.pcs[w].response.Ok?;
    more := [Send(w)];
    assert (run + more)[..|run + more| - 1] == run;
    SendAnswers(s, w);
    hide Enabled, Do;
  }

  lemma SendAnswers(s: State, w: nat)
    requires LocksMatch(s) && w < |s.pcs| && s.pcs[w].Reply?
    ensures Enabled(s, Send(w))
    ensures var t := Do(s, Send(w));
            |t.log| == |s.log| + 1 && t.log[|s.log|] == Answered(s.pcs[w].id, s.pcs[w].response, s.pcs[w].approval)
  {
  }

  /** Which OKs can still come after the camera lock is poisoned: exactly those whose approval was
      complete and only waited to be sent. */
  lemma OkAfterPoison(run: seq<Label>, id: nat)
    requires Exec(run).Some? && Exec(run).value.cam.poisoned
    ensures (exists more :: Exec(run + more).Some? && AnswersOk(Exec(run + more).value, |Exec(run).value.log|, id))
            <==> Pending(Exec(run).value, id)
  {
    hide Exec, Pending, AnswersOk;
    forall more | Exec(run + more).Some? && AnswersOk(Exec(run + more).value, |Exec(run).value.log|, id)
      ensures Pending(Exec(run).value, id)
    {
      OnlyPendingAnswered(run, more, id);
    }
    if Pending(Exec(run).value, id) {
      var more := PendingCanBeAnswered(run, id);
    }
  }
}
