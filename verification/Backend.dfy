// The face backend: one child process, polled every 100 ms until it exits or 30 s have passed.
module Backend {
  import opened Text

  const TIMEOUT := 30000
  const POLL := 100
  const DETAIL := 512

  predicate ValidUsername(user: string) {
    && user != "" && Utf8Len(user) <= 64
    && forall i :: 0 <= i < |user| ==> IsAlphanumeric(user[i]) || user[i] == '_' || user[i] == '-' || user[i] == '.'
  }

  lemma UsernameExactly(user: string)
    ensures ValidUsername(user) <==>
      && 1 <= Utf8Len(user) <= 64
      && forall c :: c in user ==>
           'a' <= c <= 'z' || 'A' <= c <= 'Z' || '0' <= c <= '9' || c == '_' || c == '-' || c == '.'
  {
    assert forall i :: 0 <= i < |user| ==> user[i] in user;
  }

  // ---------------------------------------------------------------- the detail text

  /** `combined_output` before it is cut to 512 bytes. */
  function Combined(stdout: string, stderr: string): string {
    var s, e := Trim(stdout), Trim(stderr);
    if e == "" then s else if s == "" then e else s + " | " + e
  }

  /** Both outputs are there, in order and trimmed, with a separator if neither is empty. */
  lemma CombinedExactly(stdout: string, stderr: string)
    ensures var s, e, r := Trim(stdout), Trim(stderr), Combined(stdout, stderr);
            && |r| == |s| + |e| + (if s != "" && e != "" then 3 else 0)
            && r[..|s|] == s && r[|r| - |e|..] == e
            && (s != "" && e != "" ==> r[|s|..|s| + 3] == " | ")
  {
    hide Trim;
  }

  /** Cutting at 512 bytes is possible: a character ends there. */
  ghost predicate CutsCleanly(s: string) {
    Utf8Len(s) <= DETAIL || exists k: nat :: k <= |s| && Utf8Len(s[..k]) == DETAIL
  }

  /** A character covers the 512th byte boundary. */
  ghost predicate Straddles(s: string, k: nat) {
    k < |s| && Utf8Len(s[..k]) < DETAIL < Utf8Len(s[..k + 1])
  }

  lemma {:induction false} PrefixBytes(s: string, j: nat, k: nat)
    requires j < k <= |s|
    ensures Utf8Len(s[..j]) < Utf8Len(s[..k])
  {
    assert s[..k] == s[..j] + s[j..k];
    Utf8LenConcat(s[..j], s[j..k]);
  }

  /** The last prefix that fits. */
  lemma {:induction false} CutPoint(s: string, k: nat) returns (j: nat)
    requires k <= |s| && Utf8Len(s[..k]) > DETAIL
    ensures j < k && Utf8Len(s[..j]) <= DETAIL < Utf8Len(s[..j + 1])
  {
    if Utf8Len(s[..k - 1]) <= DETAIL {
      j := k - 1;
    } else {
      j := CutPoint(s, k - 1);
    }
  }

  /** The cut panics exactly when a character straddles the boundary. */
  lemma CutsUnlessStraddled(s: string)
    ensures CutsCleanly(s) <==> forall k: nat :: !Straddles(s, k)
  {
    assert s[..|s|] == s;
    forall j: nat, k: nat | j <= |s| && Utf8Len(s[..j]) == DETAIL ensures !Straddles(s, k) {
      if j < k <= |s| {
        PrefixBytes(s, j, k);
      } else if k < j && k + 1 < j {
        PrefixBytes(s, k + 1, j);
      }
    }
    if Utf8Len(s) > DETAIL {
      var j := CutPoint(s, |s|);
      assert Utf8Len(s[..j]) == DETAIL || Straddles(s, j);
    } else {
      forall k: nat ensures !Straddles(s, k) {
        if k + 1 < |s| {
          PrefixBytes(s, k + 1, |s|);
        }
      }
    }
  }

  /** 511 bytes and then a character of two. */
  function TooWide(): string {
    seq(511, _ => 'a') + ['\U{e9}']
  }

  /** This output cannot be cut. */
  lemma CutCanPanic()
    ensures Utf8Len(TooWide()) == 513 && Straddles(TooWide(), 511) && !CutsCleanly(TooWide())
  {
    var s := TooWide();
    var head := s[..511];
    assert s == head + ['\U{e9}'];
    Utf8LenAscii(head);
    Utf8LenConcat(head, ['\U{e9}']);
    assert ['\U{e9}'][1..] == [] && Utf8Len(['\U{e9}']) == 2;
    assert s[..512] == s;
    assert Straddles(s, 511);
    hide Straddles, CutsCleanly, TooWide;
    CutsUnlessStraddled(s);
  }

  // ---------------------------------------------------------------- the poll loop

  datatype Poll = Running | Exited(success: bool) | PollError

  /** A child as the loop sees it: the answer and the time of every poll, and what is collected
      from it at the end. */
  datatype Child = Child(poll: nat -> Poll, elapsed: nat -> nat, output: Option<(string, string)>)

  datatype Outcome = Done(approved: bool) | IoError | Panicked

  /** Every poll but the first comes after a sleep. */
  ghost predicate Sleeps(c: Child) {
    forall i: nat :: c.elapsed(i) + POLL <= c.elapsed(i + 1)
  }

  /** The child was seen to exit at poll `n`, all earlier polls being in time and without an end. */
  ghost predicate ExitsAt(c: Child, n: nat) {
    && c.poll(n).Exited?
    && forall i: nat :: i < n ==> c.poll(i).Running? && c.elapsed(i) < TIMEOUT
  }

  /** The loop ends at poll `n`: there the child has ended or cannot be polled, or the time is up, and
      at no earlier poll. */
  ghost predicate EndsAt(c: Child, n: nat) {
    && (!c.poll(n).Running? || c.elapsed(n) >= TIMEOUT)
    && forall i: nat :: i < n ==> c.poll(i).Running? && c.elapsed(i) < TIMEOUT
  }

  /** What the child printed can be collected and cut. */
  ghost predicate Reports(c: Child) {
    c.output.Some? && CutsCleanly(Combined(c.output.value.0, c.output.value.1))
  }

  /** What the backend approves: a valid user name whose child is seen to exit successfully before a
      timeout is seen, and whose output can be collected and cut. */
  ghost predicate Approvable(user: string, c: Child) {
    ValidUsername(user) && Reports(c) && exists n: nat :: ExitsAt(c, n) && c.poll(n).success
  }

  /** The same without the names of the limits. */
  lemma ApprovableExactly(user: string, c: Child)
    ensures Approvable(user, c) <==>
      && ValidUsername(user) && c.output.Some?
      && (var detail := Combined(c.output.value.0, c.output.value.1);
          Utf8Len(detail) <= 512 || exists k: nat :: k <= |detail| && Utf8Len(detail[..k]) == 512)
      && exists n: nat ::
           c.poll(n) == Exited(true) && forall i: nat :: i < n ==> c.poll(i).Running? && c.elapsed(i) < 30000
  {
    hide Combined, ValidUsername, Utf8Len;
    forall n: nat ensures ExitsAt(c, n) && c.poll(n).success <==>
      c.poll(n) == Exited(true) && forall i: nat :: i < n ==> c.poll(i).Running? && c.elapsed(i) < 30000
    {
    }
  }

  method Finish(c: Child, verdict: bool) returns (r: Outcome)
    ensures r == Done(verdict) <==> Reports(c)
    ensures r.IoError? <==> c.output == None
    ensures r.Panicked? <==> c.output.Some? && !Reports(c)
  {
    if c.output == None {
      return IoError;
    }
    var detail := Combined(c.output.value.0, c.output.value.1);
    var clean := Cut(detail);
    return if clean then Done(verdict) else Panicked;
  }

  /** `truncate(512)` where the text is longer. */
  method Cut(s: string) returns (clean: bool)
    ensures clean == CutsCleanly(s)
  {
    if Utf8Len(s) <= DETAIL {
      return true;
    }
    for k := 0 to |s| + 1
      invariant forall j :: 0 <= j < k ==> Utf8Len(s[..j]) != DETAIL
    {
      if Utf8Len(s[..k]) == DETAIL {
        return true;
      }
    }
    return false;
  }

  /** `Backend::authenticate`: it approves exactly what is approvable, panics exactly on output that
      cannot be cut, and polls at most 301 times. */
  method Authenticate(user: string, spawned: Option<Child>) returns (r: Outcome, polls: nat)
    requires spawned.Some? ==> Sleeps(spawned.value)
    ensures r == Done(true) <==> spawned.Some? && Approvable(user, spawned.value)
    ensures polls <= 301
    ensures polls > 0 <==> ValidUsername(user) && spawned.Some?
    ensures polls > 0 ==> EndsAt(spawned.value, polls - 1)
    ensures r.Panicked? <==>
      && polls > 0 && !spawned.value.poll(polls - 1).PollError?
      && spawned.value.output.Some? && !Reports(spawned.value)
    ensures r.IoError? <==>
      && ValidUsername(user)
      && (spawned.Some? ==> spawned.value.poll(polls - 1).PollError? || spawned.value.output == None)
    ensures r == Done(true) ==> ExitsAt(spawned.value, polls - 1) && spawned.value.poll(polls - 1).success
  {
    hide CutsCleanly, Combined, ValidUsername, Reports;
    polls := 0;
    if !ValidUsername(user) {
      return Done(false), 0;
    }
    if spawned == None {
      return IoError, 0;
    }
    var c := spawned.value;
    while true
      invariant forall i: nat :: i < polls ==> c.poll(i).Running? && c.elapsed(i) < TIMEOUT
      invariant c.elapsed(polls) >= POLL * polls
      invariant polls <= TIMEOUT / POLL
      decreases TIMEOUT / POLL + 1 - polls
    {
      var status := c.poll(polls);
      polls := polls + 1;
      if status.PollError? {
        return IoError, polls;
      }
      if status.Exited? {
        assert ExitsAt(c, polls - 1);
        r := Finish(c, status.success);
        return r, polls;
      }
      if c.elapsed(polls - 1) >= TIMEOUT {
        r := Finish(c, false);
        return r, polls;
      }
      assert c.elapsed(polls - 1) + POLL <= c.elapsed(polls);
    }
  }
}
