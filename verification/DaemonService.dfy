// What the daemon does grant: a proper request that finds the locks free is served to its OK, and
// a concrete run shows an approved answer leaving after the camera lock is poisoned.
module DaemonService {
  import opened Text
  import opened Protocol
  import opened HowdyConfig
  import opened Hardware
  import opened RateLimit
  import opened Backend
  import opened Daemon
  import opened DaemonEvidence
  import opened DaemonRuns

  lemma Next(run: seq<Label>, l: Label)
    requires Exec(run).Some? && Enabled(Exec(run).value, l)
    ensures Exec(run + [l]) == Some(Do(Exec(run).value, l))
  {
  }

  /** Worker `w` is idle, the locks are free, and the head of the queue asks for `user`, may do so
      and is not rate-limited. */
  ghost predicate Ready(s: State, w: nat, user: string, target: nat) {
    && w < WORKERS && |s.pcs| == WORKERS && s.pcs[w] == WantRecv
    && s.recv == FREE && s.rate == FREE && s.cam == FREE
    && s.queue != [] && s.queue[0] < |s.conns| && |s.fate| == |s.conns|
    && Asked(s.conns[s.queue[0]], user)
    && (var uid := s.conns[s.queue[0]].uid;
        && (uid == 0 || uid == target)
        && (uid in s.last ==> s.clock - s.last[uid] >= 500))
  }

  /** The state in which `w` serves `id` at `pc`, with these events logged since `s`. */
  ghost predicate Reached(s: State, t: State, w: nat, pc: Pc, events: nat)
    requires w < WORKERS == |s.pcs| && s.queue != []
  {
    && t.clock == s.clock && t.conns == s.conns && t.queue == s.queue[1..] && |t.fate| == |s.fate|
    && t.pcs == s.pcs[w := pc] && t.recv == FREE && t.rate == FREE && |t.log| == |s.log| + events
  }

  lemma Dequeues(run: seq<Label>, w: nat, user: string, target: nat) returns (more: seq<Label>)
    requires Exec(run).Some? && Ready(Exec(run).value, w, user, target)
    ensures Exec(run + more).Some?
    ensures var s, t := Exec(run).value, Exec(run + more).value;
            Reached(s, t, w, Parse(s.queue[0]), 0) && t.cam == FREE && t.last == s.last
  {
    hide Exec, Asked, MayAuthenticate, Admits;
    Next(run, LockRecv(w));
    Next(run + [LockRecv(w)], Take(w));
    more := [LockRecv(w), Take(w)];
    assert run + more == run + [LockRecv(w)] + [Take(w)];
  }

  lemma FindsUser(run: seq<Label>, w: nat, user: string, target: nat) returns (more: seq<Label>)
    requires Exec(run).Some? && Ready(Exec(run).value, w, user, target)
    ensures Exec(run + more).Some?
    ensures var s, t := Exec(run).value, Exec(run + more).value;
            && Reached(s, t, w, WantRate(s.queue[0], user, Trail(|s.log|, 0, 0, 0)), 1)
            && t.cam == FREE && t.last == s.last
  {
    hide Exec, Admits, Complete, DecodeRequest, Message;
    var first := Dequeues(run, w, user, target);
    var parse, find := ParseLine(w, DaemonStatus("", 0, false)), FindUser(w, Some(target));
    Next(run + first, parse);
    Next(run + first + [parse], find);
    more := first + [parse, find];
    assert run + more == run + first + [parse] + [find];
  }

  lemma ReachesCamera(run: seq<Label>, w: nat, user: string, target: nat) returns (more: seq<Label>)
    requires Exec(run).Some? && Ready(Exec(run).value, w, user, target)
    ensures Exec(run + more).Some?
    ensures var s, t := Exec(run).value, Exec(run + more).value;
            && Reached(s, t, w, InCam(s.queue[0], user, Trail(|s.log|, |s.log| + 1, |s.log| + 2, 0)), 3)
            && t.cam == Lock(Some(w), false)
            && t.last == s.last[s.conns[s.queue[0]].uid := s.clock]
  {
    hide Exec, Message, Asked, MayAuthenticate;
    var first := FindsUser(run, w, user, target);
    Next(run + first, LockRate(w));
    Next(run + first + [LockRate(w)], Decide(w));
    Next(run + first + [LockRate(w)] + [Decide(w)], LockCam(w));
    more := first + [LockRate(w), Decide(w), LockCam(w)];
    assert run + more == run + first + [LockRate(w)] + [Decide(w)] + [LockCam(w)];
  }

  /** The other direction of safety: a request that meets every condition is approved when the
      camera is strict and the backend says so. */
  lemma GoodRequestIsApproved(run: seq<Label>, w: nat, user: string, target: nat,
                              config: Config, machine: Machine, device: VideoDevice, child: Child)
    returns (more: seq<Label>)
    requires Exec(run).Some? && Ready(Exec(run).value, w, user, target)
    requires ConfiguredCamera(config).Device? && Identifies(machine, ConfiguredCamera(config).path, device)
    requires Sleeps(child) && Approvable(user, child)
    ensures Exec(run + more).Some?
    ensures var s, t := Exec(run).value, Exec(run + more).value;
            && Reached(s, t, w, Reply(s.queue[0], Response.Ok(Granted()), Some(|s.log| + 4)), 6)
            && t.cam == FREE && t.last == s.last[s.conns[s.queue[0]].uid := s.clock]
  {
    hide Exec, Admits, Message, Asked, MayAuthenticate, ConfiguredCamera, Identifies, Approvable, Sleeps;
    var first := ReachesCamera(run, w, user, target);
    var check, ask := CheckPolicy(w, config, machine, StrictDevice(device)), Recognise(w, Some(child), Approve);
    Next(run + first, check);
    Next(run + first + [check], ask);
    more := first + [check, ask];
    assert run + more == run + first + [check] + [ask];
  }

  /** And the answer goes out. */
  lemma GoodRequestSucceeds(run: seq<Label>, w: nat, user: string, target: nat,
                            config: Config, machine: Machine, device: VideoDevice, child: Child)
    returns (more: seq<Label>)
    requires Exec(run).Some? && Ready(Exec(run).value, w, user, target)
    requires ConfiguredCamera(config).Device? && Identifies(machine, ConfiguredCamera(config).path, device)
    requires Sleeps(child) && Approvable(user, child)
    ensures Exec(run + more).Some?
    ensures AnswersOk(Exec(run + more).value, |Exec(run).value.log|, Exec(run).value.queue[0])
  {
    hide Exec, Asked, Admits, MayAuthenticate, Approvable, Sleeps, ConfiguredCamera, Identifies, Granted;
    var first := GoodRequestIsApproved(run, w, user, target, config, machine, device, child);
    assert Exec(run + first).value.pcs[w].Reply?;
    var last := PendingCanBeAnswered(run + first, Exec(run).value.queue[0]);
    more := first + last;
    assert run + more == run + first + last;
  }

  // ---------------------------------------------------------------- a concrete run

  const NODE := "/dev/" + "videoinfrared"

  function SomeMachine(): Machine {
    Machine(map[NODE := Target("v")], Some([VideoEntry("videoinfrared", None, None)]), map[], None)
  }

  lemma SomeMachineIsStrict() returns (device: VideoDevice)
    ensures Identifies(SomeMachine(), NODE, device)
  {
    hide TokenIr, FindUsb, Lower, Verified, Judge;
    var m, v := SomeMachine(), VideoEntry("videoinfrared", None, None);
    device := Classify(v, m.tree, Verified(m.ids));
    assert StartsWith("videoinfrared", "video") by {
      assert "videoinfrared"[..5] == "video";
    }
    assert v in m.videos.value;
    SaysInfrared(FindUsb(m.tree, v.device), Verified(m.ids));
  }

  lemma SaysInfrared(usb: UsbInfo, verified: set<string>)
    ensures IsStrict(Judge("videoinfrared", usb, verified))
  {
    hide TokenIr, Lower;
    assert At(Lower("videoinfrared"), 5, "infrared");
  }

  lemma NodeIsClean()
    ensures Clean(NODE) && StartsWith(NODE, "/")
  {
  }

  lemma SomeConfig() returns (config: Config)
    ensures ConfiguredCamera(config) == Device(NODE)
  {
    OneVideoLine();
    NodeIsClean();
    hide IsVideoHeader, Clean, Lines, StartsWith, ConfiguredCamera, ReplaceText;
    BindThenConfigured("[video]", NODE);
    config := Readable(ReplaceText("[video]", NODE));
  }

  /** A child that has exited successfully, without any output, when it is first polled. */
  function SomeChild(): Child {
    Child(_ => Poll.Exited(true), i => i * POLL, Some(("", "")))
  }

  lemma SomeChildIsApproved()
    ensures Sleeps(SomeChild()) && Approvable("a", SomeChild())
  {
    var c := SomeChild();
    assert Combined("", "") == "";
    assert ExitsAt(c, 0) && c.poll(0).success;
    assert ValidUsername("a");
  }

  function SomeConn(): (c: Conn)
    ensures c.uid == 0
  {
    Conn(0, Some("V1\tAUTH\t" + "a" + "\t" + "b\n"))
  }

  lemma SomeConnAsks()
    ensures Asked(SomeConn(), "a")
  {
    hide ValidField, TrimEol, DecodeRequest;
    DecodeAuth("a", "b\n");
    ShortFields();
  }

  lemma BothQueued(c: Conn)
    ensures Exec([Accept(c), Accept(c)])
         == Some(INIT.(conns := [c, c], queue := [0, 1], fate := [Queued, Queued]))
  {
    hide MoveOf, Apply, ConfiguredCamera, LegalPolicy, Worker, Exec;
    var one := INIT.(conns := [c], queue := [0], fate := [Queued]);
    assert Do(INIT, Accept(c)) == one;
    assert Do(one, Accept(c)) == INIT.(conns := [c, c], queue := [0, 1], fate := [Queued, Queued]);
    hide Do, Enabled;
    NothingRun();
    AcceptNext([], c);
    assert [] + [Accept(c)] == [Accept(c)];
    AcceptNext([Accept(c)], c);
    assert [Accept(c)] + [Accept(c)] == [Accept(c), Accept(c)];
  }

  lemma NothingRun()
    ensures Exec([]) == Some(INIT)
  {
  }

  lemma AcceptNext(run: seq<Label>, c: Conn)
    requires Exec(run).Some?
    ensures Exec(run + [Accept(c)]) == Some(Do(Exec(run).value, Accept(c)))
  {
  }

  /** The first request is approved but not answered, the second holds the camera. */
  lemma SecondInCamera() returns (run: seq<Label>)
    ensures Exec(run).Some?
    ensures var s := Exec(run).value;
            && |s.pcs| == WORKERS && s.pcs[0] == Reply(0, Response.Ok(Granted()), Some(4)) && s.pcs[1].InCam?
            && s.cam.owner == Some(1) && s.recv == FREE && s.rate == FREE
  {
    hide SomeConn, Exec, Asked, ConfiguredCamera, Identifies, Granted, SomeMachine;
    var queued := [Accept(SomeConn()), Accept(SomeConn())];
    BothQueued(SomeConn());
    SomeConnAsks();
    var config := SomeConfig();
    var device := SomeMachineIsStrict();
    SomeChildIsApproved();
    hide Sleeps, Approvable, SomeChild;
    var first := GoodRequestIsApproved(queued, 0, "a", 0, config, SomeMachine(), device, SomeChild());
    Next(queued + first, Tick(500));
    var second := ReachesCamera(queued + first + [Tick(500)], 1, "a", 0);
    run := queued + first + [Tick(500)] + second;
  }

  /** An OK can be answered although the camera lock was poisoned before: the approval was already
      there. */
  lemma OkCanFollowPoison() returns (run: seq<Label>, more: seq<Label>)
    ensures Exec(run).Some? && Exec(run).value.cam.poisoned
    ensures Exec(run + more).Some? && AnswersOk(Exec(run + more).value, |Exec(run).value.log|, 0)
  {
    hide Exec, AnswersOk;
    var before := SecondInCamera();
    Next(before, Panic(1));
    run := before + [Panic(1)];
    assert Exec(run).value.pcs[0] == Exec(before).value.pcs[0];
    more := PendingCanBeAnswered(run, 0);
  }
}
