// Conservation of connections: every accepted stream is in exactly one place, and workers take
// the queued ones in arrival order, each at most once.
module DaemonQueue {
  import opened Protocol
  import opened HowdyConfig
  import opened Hardware
  import opened RateLimit
  import opened Daemon

  ghost predicate Ascending(ids: seq<nat>) {
    forall i, j :: 0 <= i < j < |ids| ==> ids[i] < ids[j]
  }

  predicate Started(f: Fate) {
    f.InService? || f.Finished? || f.Lost?
  }

  /** The queue and the taken connections, by the fate of each connection. */
  ghost predicate Places(s: State) {
    && |s.fate| == |s.conns| && |s.queue| <= QUEUE
    && Ascending(s.taken + s.queue)
    && (forall id: nat :: id in s.queue <==> id < |s.fate| && s.fate[id].Queued?)
    && (forall id: nat :: id in s.taken <==> id < |s.fate| && Started(s.fate[id]))
  }

  /** A connection is in service exactly at the worker that serves it. */
  ghost predicate Posts(s: State) {
    && |s.pcs| == WORKERS
    && (forall w: nat :: w < WORKERS && Serving(s.pcs[w]) ==>
          s.pcs[w].id < |s.fate| && s.fate[s.pcs[w].id] == InService(w))
    && (forall id: nat :: id < |s.fate| && s.fate[id].InService? ==>
          var w := s.fate[id].worker; w < WORKERS && Serving(s.pcs[w]) && s.pcs[w].id == id)
  }

  /** A worker keeps the connection it serves until it ends it, and gets a new one only from the head
      of the queue. */
  predicate Orderly(pc: Pc, m: Move, queue: seq<nat>) {
    && (m.takes <==> pc.InRecv? && Serving(m.pc)) && (m.takes ==> queue != [] && m.pc.id == queue[0])
    && (m.ending.Some? <==> Serving(pc) && !Serving(m.pc))
    && (m.ending.Some? ==> m.ending.value.Finished? || m.ending.value.Lost?)
    && (Serving(m.pc) && !m.takes ==> Serving(pc) && m.pc.id == pc.id)
  }

  lemma MoveIsOrderly(s: State, l: Label)
    requires Enabled(s, l) && Worker(l).Some?
    ensures Orderly(s.pcs[l.w], MoveOf(s, l), s.queue)
  {
    hide ConfiguredCamera, LegalPolicy, DecodeRequest, Complete, Admits, Message;
  }

  lemma ApplyKeepsPosts(s: State, w: nat, m: Move)
    requires Places(s) && Posts(s) && w < WORKERS && Orderly(s.pcs[w], m, s.queue)
    ensures Posts(Apply(s, w, m))
  {
    assert m.takes ==> s.queue[0] in s.queue;
  }

  lemma ApplyKeepsPlaces(s: State, w: nat, m: Move)
    requires Places(s) && Posts(s) && w < WORKERS && Orderly(s.pcs[w], m, s.queue)
    ensures Places(Apply(s, w, m))
  {
    if m.takes {
      var q := s.queue;
      assert q[0] in q && q == [q[0]] + q[1..];
      assert s.taken + q == (s.taken + [q[0]]) + q[1..];
      forall id: nat ensures id in q[1..] <==> id in q && id != q[0] {
        if id in q[1..] {
          var k :| 0 <= k < |q| - 1 && q[1..][k] == id;
          assert (s.taken + q)[|s.taken|] == q[0] && (s.taken + q)[|s.taken| + k + 1] == id;
        }
      }
    }
  }

  lemma AcceptKeeps(s: State, conn: Conn)
    requires Places(s) && Posts(s)
    ensures Places(DoAccept(s, conn)) && Posts(DoAccept(s, conn))
  {
    var t := DoAccept(s, conn);
    assert s.taken + (s.queue + [|s.conns|]) == (s.taken + s.queue) + [|s.conns|];
    forall k | 0 <= k < |s.taken + s.queue| ensures (s.taken + s.queue)[k] < |s.conns| {
      if k < |s.taken| {
        assert s.taken[k] in s.taken;
      } else {
        assert s.queue[k - |s.taken|] in s.queue;
      }
    }
  }

  lemma QueueStep(s: State, l: Label)
    requires Places(s) && Posts(s) && Enabled(s, l)
    ensures Places(Do(s, l)) && Posts(Do(s, l))
  {
    if Worker(l).Some? {
      MoveIsOrderly(s, l);
      hide MoveOf, Enabled, Apply, Places, Posts, Orderly;
      ApplyKeepsPosts(s, l.w, MoveOf(s, l));
      ApplyKeepsPlaces(s, l.w, MoveOf(s, l));
    } else if l.Accept? {
      hide Places, Posts, DoAccept;
      AcceptKeeps(s, l.conn);
    }
  }
}
