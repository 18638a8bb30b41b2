// The daemon's limiter: one admitted authentication request a uid in half a second.
module RateLimit {

  const MIN_INTERVAL := 500

  /** A request of a uid at a time in milliseconds. */
  datatype Attempt = Attempt(uid: nat, at: nat)

  /** The time of the last admitted request of each uid. */
  type Table = map<nat, nat>

  predicate Admits(last: Table, a: Attempt) {
    !(a.uid in last && a.at - last[a.uid] < MIN_INTERVAL)
  }

  function Record(last: Table, a: Attempt): Table {
    if Admits(last, a) then last[a.uid := a.at] else last
  }

  function TableOf(h: seq<Attempt>): Table {
    if h == [] then map[] else Record(TableOf(h[..|h| - 1]), h[|h| - 1])
  }

  /** The mutex-protected map of the daemon, with the requests it has seen. */
  class Limiter {
    var last: Table
    ghost var history: seq<Attempt>

    ghost predicate Valid()
      reads this
    {
      last == TableOf(history)
    }

    constructor ()
      ensures Valid() && history == []
    {
      last := map[];
      history := [];
    }

    /** `rate_limit` under the lock, with the clock read inside it. */
    method RateLimit(uid: nat, now: nat) returns (admitted: bool)
      requires Valid()
      modifies this
      ensures Valid() && history == old(history) + [Attempt(uid, now)]
      ensures admitted == Admits(TableOf(old(history)), Attempt(uid, now))
      ensures admitted <==> (uid in old(last) ==> now - old(last)[uid] >= 500)
      ensures admitted ==> last == old(last)[uid := now]
      ensures !admitted ==> last == old(last)
    {
      ghost var h := history + [Attempt(uid, now)];
      assert h[..|h| - 1] == history;
      history := h;
      if uid in last && now - last[uid] < MIN_INTERVAL {
        return false;
      }
      last := last[uid := now];
      return true;
    }
  }

  // ---------------------------------------------------------------- what a uid gets

  /** The admission times of one uid, in order. */
  function AdmittedTimes(h: seq<Attempt>, uid: nat): seq<nat> {
    if h == [] then []
    else
      var front, a := h[..|h| - 1], h[|h| - 1];
      AdmittedTimes(front, uid) + if a.uid == uid && Admits(TableOf(front), a) then [a.at] else []
  }

  /** The decisions one uid gets, in order. */
  function Verdicts(h: seq<Attempt>, uid: nat): seq<bool> {
    if h == [] then []
    else
      var front, a := h[..|h| - 1], h[|h| - 1];
      Verdicts(front, uid) + if a.uid == uid then [Admits(TableOf(front), a)] else []
  }

  /** The map holds exactly the last admission of every uid: rejected requests never extend the
      wait. */
  lemma {:induction false} TableHoldsLastAdmission(h: seq<Attempt>, uid: nat)
    ensures uid in TableOf(h) <==> AdmittedTimes(h, uid) != []
    ensures uid in TableOf(h) ==> TableOf(h)[uid] == AdmittedTimes(h, uid)[|AdmittedTimes(h, uid)| - 1]
  {
    if h != [] {
      TableHoldsLastAdmission(h[..|h| - 1], uid);
    }
  }

  ghost predicate Spaced(ts: seq<nat>) {
    forall i :: 0 < i < |ts| ==> ts[i] - ts[i - 1] >= MIN_INTERVAL
  }

  lemma {:induction false} AdmissionsAreSpaced(h: seq<Attempt>, uid: nat)
    ensures Spaced(AdmittedTimes(h, uid))
    ensures forall i :: 0 < i < |AdmittedTimes(h, uid)| ==>
              AdmittedTimes(h, uid)[i] - AdmittedTimes(h, uid)[i - 1] >= 500
  {
    if h != [] {
      AdmissionsAreSpaced(h[..|h| - 1], uid);
      TableHoldsLastAdmission(h[..|h| - 1], uid);
    }
  }

  /** The times within a window of `length` ms that starts at `from`. */
  function Within(ts: seq<nat>, from: nat, length: nat): seq<nat> {
    if ts == [] then []
    else
      var t := ts[|ts| - 1];
      Within(ts[..|ts| - 1], from, length) + if from <= t <= from + length then [t] else []
  }

  lemma {:induction false} WithinIsSpaced(ts: seq<nat>, from: nat, length: nat)
    requires Spaced(ts)
    ensures Spaced(Within(ts, from, length))
    ensures forall i :: 0 <= i < |Within(ts, from, length)| ==> from <= Within(ts, from, length)[i] <= from + length
    ensures Within(ts, from, length) != [] ==> Within(ts, from, length)[|Within(ts, from, length)| - 1] <= ts[|ts| - 1]
  {
    if ts != [] {
      var front, t := ts[..|ts| - 1], ts[|ts| - 1];
      assert forall i :: 0 <= i < |front| ==> front[i] == ts[i];
      WithinIsSpaced(front, from, length);
      var w := Within(front, from, length);
      hide Within;
      assert w != [] ==> w[|w| - 1] <= front[|front| - 1] && t - front[|front| - 1] >= MIN_INTERVAL;
    }
  }

  lemma {:induction false} SpacedSpan(ts: seq<nat>)
    requires Spaced(ts) && ts != []
    ensures ts[|ts| - 1] - ts[0] >= (|ts| - 1) * MIN_INTERVAL
  {
    if |ts| > 1 {
      SpacedSpan(ts[..|ts| - 1]);
      assert ts[|ts| - 1] - ts[|ts| - 2] >= MIN_INTERVAL;
    }
  }

  /** The window bound: in any `length` ms a uid is admitted at most length/500 + 1 times. */
  lemma WindowBound(h: seq<Attempt>, uid: nat, from: nat, length: nat)
    ensures |Within(AdmittedTimes(h, uid), from, length)| <= length / 500 + 1
  {
    AdmissionsAreSpaced(h, uid);
    WithinIsSpaced(AdmittedTimes(h, uid), from, length);
    var ts := Within(AdmittedTimes(h, uid), from, length);
    if ts != [] {
      SpacedSpan(ts);
    }
  }

  /** The bound is met: one request every 500 ms is always admitted. */
  lemma {:induction false} SteadyRequestsAdmitted(h: seq<Attempt>, a: Attempt)
    requires forall i :: 0 <= i < |h| ==> h[i].at + 500 <= a.at
    ensures Admits(TableOf(h), a)
  {
    if h != [] {
      SteadyRequestsAdmitted(h[..|h| - 1], a);
    }
  }

  // ---------------------------------------------------------------- independence of uids

  function OnlyOf(h: seq<Attempt>, uid: nat): seq<Attempt> {
    if h == [] then []
    else
      var a := h[|h| - 1];
      OnlyOf(h[..|h| - 1], uid) + if a.uid == uid then [a] else []
  }

  /** Deleting the requests of all other uids from a run changes nothing for this one. */
  lemma {:induction false} OthersDoNotMatter(h: seq<Attempt>, uid: nat)
    ensures uid in TableOf(h) <==> uid in TableOf(OnlyOf(h, uid))
    ensures uid in TableOf(h) ==> TableOf(h)[uid] == TableOf(OnlyOf(h, uid))[uid]
    ensures Verdicts(h, uid) == Verdicts(OnlyOf(h, uid), uid)
    ensures AdmittedTimes(h, uid) == AdmittedTimes(OnlyOf(h, uid), uid)
  {
    if h != [] {
      var front, a := h[..|h| - 1], h[|h| - 1];
      OthersDoNotMatter(front, uid);
      if a.uid == uid {
        var o := OnlyOf(front, uid) + [a];
        assert o[..|o| - 1] == OnlyOf(front, uid);
      } else {
        assert OnlyOf(front, uid) + [] == OnlyOf(front, uid);
      }
    }
  }
}
