// Waiting for the daemon: `irauthctl` asks it for a PONG until it answers or a timeout has passed.
module Readiness {
  import opened Text
  import opened Protocol

  const READY := "PONG"

  /** A probe got the readiness answer; none is an I/O error. */
  predicate SaysReady(answer: Option<string>) {
    answer.Some? && Trim(answer.value) == READY
  }

  /** Only a PONG response counts as readiness. */
  lemma OnlyPongIsReady(r: Response)
    ensures SaysReady(Some(EncodeResponse(r))) <==> r.Pong?
  {
    var e := EncodeResponse(r);
    if r.Pong? {
      PongTrims();
    } else {
      hide Sanitize, Decimal, Trim;
      TrimKeepsHead(e);
      assert READY[0] != e[0];
    }
  }

  lemma PongTrims()
    ensures Trim("PONG\n") == READY
  {
    hide Trim;
    assert "PONG\n" == READY + "\n";
    TrimSnoc(READY, '\n');
    TrimOfTrimmed(READY);
  }

  /** After a sleep, the clock has moved by the interval or reached the timeout. */
  ghost predicate Sleeps(elapsed: nat -> nat, timeout: nat, interval: nat) {
    forall i: nat :: elapsed(i) < timeout ==>
      elapsed(i + 1) >= timeout || elapsed(i) + interval <= elapsed(i + 1)
  }

  /** Probe `n` is the first that finds the daemon ready, all earlier ones being in time. */
  ghost predicate ReadyAt(probe: nat -> Option<string>, elapsed: nat -> nat, timeout: nat, n: nat) {
    SaysReady(probe(n)) && forall i: nat :: i < n ==> !SaysReady(probe(i)) && elapsed(i) < timeout
  }

  /** The loop ends at probe `n`: there the daemon is ready or the time is up, and at no earlier one. */
  ghost predicate EndsAt(probe: nat -> Option<string>, elapsed: nat -> nat, timeout: nat, n: nat) {
    && (SaysReady(probe(n)) || elapsed(n) >= timeout)
    && forall i: nat :: i < n ==> !SaysReady(probe(i)) && elapsed(i) < timeout
  }

  function CeilDiv(a: nat, b: nat): nat
    requires b > 0
  {
    (a + b - 1) / b
  }

  lemma CeilBound(a: nat, b: nat, n: nat)
    requires b > 0 && b * n < a
    ensures n < CeilDiv(a, b)
  {
  }

  /** `wait_for_daemon_ready_with`: it succeeds exactly when a probe in time finds the daemon ready,
      and it probes at most ceil(timeout / interval) + 1 times. */
  method WaitForDaemonReady(probe: nat -> Option<string>, elapsed: nat -> nat, timeout: nat, interval: nat)
    returns (ready: bool, probes: nat)
    requires interval > 0 && Sleeps(elapsed, timeout, interval)
    ensures ready <==> exists n: nat :: ReadyAt(probe, elapsed, timeout, n)
    ensures 0 < probes <= CeilDiv(timeout, interval) + 1
    ensures EndsAt(probe, elapsed, timeout, probes - 1)
    ensures ready ==> ReadyAt(probe, elapsed, timeout, probes - 1)
  {
    hide SaysReady, CeilDiv;
    probes := 0;
    ready := false;
    ghost var slept := 0;
    while true
      invariant forall i: nat :: i < probes ==> !SaysReady(probe(i)) && elapsed(i) < timeout
      invariant elapsed(probes) >= timeout || elapsed(probes) >= slept
      invariant slept == interval * probes
      invariant probes <= CeilDiv(timeout, interval)
      decreases CeilDiv(timeout, interval) + 1 - probes
    {
      var answer := probe(probes);
      probes := probes + 1;
      if SaysReady(answer) {
        assert ReadyAt(probe, elapsed, timeout, probes - 1);
        return true, probes;
      }
      if elapsed(probes - 1) >= timeout {
        return false, probes;
      }
      CeilBound(timeout, interval, probes - 1);
      slept := slept + interval;
    }
  }
}
