/** A paused balancer that gets no new frames resumes, whatever run led to the pause. */
module BalanceRecovery {
  import opened Balance
  import opened BalanceRuns
  import opened BalanceAges

  // ---------- from a state ----------

  datatype Poll = Poll(pollMs: nat, sendOks: nat, now: int, spare: bool)

  function Polled(cfg: Config, p: Profile, s: State, poll: Poll): TickOutcome {
    Tick(cfg, p, s, poll.pollMs, poll.sendOks, poll.now, poll.spare)
  }

  /** The state after the first n polls, and the time of the last of them. */
  function StateAt(cfg: Config, p: Profile, s: State, polls: seq<Poll>, n: nat): State
    requires n <= |polls|
  {
    if n == 0 then s else Polled(cfg, p, StateAt(cfg, p, s, polls, n - 1), polls[n - 1]).next
  }

  function TimeAt(t0: int, polls: seq<Poll>, n: nat): int
    requires n <= |polls|
  {
    if n == 0 then t0 else polls[n - 1].now
  }

  /** The clock never goes back and no two polls are further apart than the permitted lag. */
  predicate PolledInTime(cfg: Config, t0: int, polls: seq<Poll>) {
    forall n | 0 <= n < |polls| :: TimeAt(t0, polls, n) <= polls[n].now <= TimeAt(t0, polls, n) + cfg.lagSec
  }

  predicate RecoverableConfig(cfg: Config) {
    && Governed(cfg) && 2 <= cfg.lagSec && cfg.lagSec * 2 < UINT_MODULUS
    && 2 <= cfg.queuePause && cfg.queueBreak <= cfg.queueCancel
  }

  /** Paused, within bounds, and the backlog (if any) still fresh at time t. */
  ghost predicate PausedWell(cfg: Config, p: Profile, s: State, t: int) {
    s.action == Pause && Settled(cfg, p, s) && s.oldest <= t && Fresh(cfg, s, t)
  }

  const RESUMED := [FlowCall(Resume, "stabilized")]

  lemma EmptyPauseResumes(cfg: Config, p: Profile, s: State, poll: Poll)
    requires RecoverableConfig(cfg) && Settled(cfg, p, s) && s.action == Pause && s.queue == []
    ensures Polled(cfg, p, s, poll).next.action == None && Polled(cfg, p, s, poll).flow == RESUMED
  {
    EmptyLag(p, s, poll.now);
  }

  /** Escalating a fresh pause in time never cancels: it resumes, holds, or breaks and stays paused. */
  lemma PausedEscalation(cfg: Config, p: Profile, s: State, t0: int, now: int, spare: bool)
    requires RecoverableConfig(cfg) && PausedWell(cfg, p, s, t0) && s.queue != []
    requires t0 <= now <= t0 + cfg.lagSec
    ensures var (s1, flow) := Escalate(cfg, p, s, now, spare);
            || (s1.action == None && flow == RESUMED)
            || (s1 == s && now < s.oldest + cfg.lagSec)
            || (s1.action == Pause && s1.queue == [] && s1.oldest == 0)
  {
    LagMeaning(p, s, now);
    var lag := EstimatedLag(p, s, now);
    assert lag < cfg.lagSec * 2;
    assert !Overloaded(cfg, p, s, lag);
  }

  /** One timely poll of a paused balancer. */
  lemma PausedPoll(cfg: Config, p: Profile, s: State, t0: int, poll: Poll)
    requires RecoverableConfig(cfg) && PausedWell(cfg, p, s, t0) && t0 >= 0
    requires t0 <= poll.now <= t0 + cfg.lagSec
    ensures var o := Polled(cfg, p, s, poll);
            || (o.next.action == None && o.flow == RESUMED)
            || (PausedWell(cfg, p, o.next, poll.now) &&
                (o.next.queue == [] || o.next == s))
  {
    if s.queue == [] {
      EmptyPauseResumes(cfg, p, s, poll);
    } else {
      assert Polled(cfg, p, s, poll).next == Escalate(cfg, p, s, poll.now, poll.spare).0;
      PausedEscalation(cfg, p, s, t0, poll.now, poll.spare);
      EscalateSettles(cfg, p, s, poll.now, poll.spare);
    }
  }

  /** Poll n - 1 resumed the link, or n polls left it paused with the same fresh backlog or none. */
  ghost predicate OnTrack(cfg: Config, p: Profile, s: State, t0: int, polls: seq<Poll>, n: nat)
    requires n <= |polls|
  {
    var s1 := StateAt(cfg, p, s, polls, n);
    || (n > 0 && s1.action == None && Polled(cfg, p, StateAt(cfg, p, s, polls, n - 1), polls[n - 1]).flow == RESUMED)
    || (PausedWell(cfg, p, s1, TimeAt(t0, polls, n)) &&
        (s1.queue == [] || s1 == s))
  }

  /** As long as a paused balancer has not resumed it stays paused, so it is never cancelled. */
  lemma {:induction false} StaysOnTrack(cfg: Config, p: Profile, s: State, t0: int, polls: seq<Poll>, n: nat)
    requires RecoverableConfig(cfg) && PausedWell(cfg, p, s, t0) && t0 >= 0 && PolledInTime(cfg, t0, polls)
    requires n <= |polls| && forall j | 0 <= j < n :: StateAt(cfg, p, s, polls, j).action != None
    ensures OnTrack(cfg, p, s, t0, polls, n) && TimeAt(t0, polls, n) >= t0
  {
    hide Tick;
    if n > 0 {
      StaysOnTrack(cfg, p, s, t0, polls, n - 1);
      var s1 := StateAt(cfg, p, s, polls, n - 1);
      var t1 := TimeAt(t0, polls, n - 1);
      assert PausedWell(cfg, p, s1, t1);
      PausedPoll(cfg, p, s1, t1, polls[n - 1]);
    }
  }

  /** After a poll that sees the lag there is no backlog, so the next one resumes. */
  lemma ResumesAfterLag(cfg: Config, p: Profile, s: State, t0: int, polls: seq<Poll>, k: nat)
    requires RecoverableConfig(cfg) && PausedWell(cfg, p, s, t0) && t0 >= 0 && PolledInTime(cfg, t0, polls)
    requires k + 1 < |polls| && (s.queue == [] || polls[k].now >= s.oldest + cfg.lagSec)
    requires forall j | 0 <= j <= k + 1 :: StateAt(cfg, p, s, polls, j).action != None
    ensures StateAt(cfg, p, s, polls, k + 2).action == None
  {
    StaysOnTrack(cfg, p, s, t0, polls, k + 1);
    var s1 := StateAt(cfg, p, s, polls, k + 1);
    assert s1.action != None && s1.queue == [];
    EmptyPauseResumes(cfg, p, s1, polls[k + 1]);
  }

  /** Before the resume every state is Pause, and the resume is announced. */
  lemma PausedOrResumed(cfg: Config, p: Profile, s: State, t0: int, polls: seq<Poll>, n: nat)
    requires RecoverableConfig(cfg) && PausedWell(cfg, p, s, t0) && t0 >= 0 && PolledInTime(cfg, t0, polls)
    requires n <= |polls| && forall j | 0 <= j < n :: StateAt(cfg, p, s, polls, j).action != None
    ensures var a := StateAt(cfg, p, s, polls, n).action; a == Pause || (a == None && n > 0)
    ensures StateAt(cfg, p, s, polls, n).action == None ==>
              Polled(cfg, p, StateAt(cfg, p, s, polls, n - 1), polls[n - 1]).flow == RESUMED
  {
    StaysOnTrack(cfg, p, s, t0, polls, n);
  }

  function ActionsOf(cfg: Config, p: Profile, s: State, polls: seq<Poll>): (a: seq<Action>)
    ensures |a| == |polls| + 1 && forall n | 0 <= n <= |polls| :: a[n] == StateAt(cfg, p, s, polls, n).action
  {
    seq(|polls| + 1, n requires 0 <= n <= |polls| => StateAt(cfg, p, s, polls, n).action)
  }

  function FirstNone(a: seq<Action>): (i: nat)
    ensures i <= |a| && (i < |a| ==> a[i] == None) && forall j | 0 <= j < i :: a[j] != None
  {
    if a == [] || a[0] == None then 0 else
    var i := FirstNone(a[1..]);
    assert forall j | 0 < j < i + 1 :: a[j] == a[1..][j - 1];
    i + 1
  }

  lemma StartsPaused(cfg: Config, p: Profile, s: State, t0: int, polls: seq<Poll>)
    requires PausedWell(cfg, p, s, t0)
    ensures StateAt(cfg, p, s, polls, 0).action == Pause
  {
  }

  /** The first state, in order of polls, that is not throttled; one past the last if there is none. */
  lemma FirstIdle(cfg: Config, p: Profile, s: State, polls: seq<Poll>) returns (n: nat)
    ensures n <= |polls| + 1 && (n <= |polls| ==> StateAt(cfg, p, s, polls, n).action == None)
    ensures forall j | 0 <= j < n :: StateAt(cfg, p, s, polls, j).action != None
  {
    hide *;
    var a := ActionsOf(cfg, p, s, polls);
    n := FirstNone(a);
    forall j | 0 <= j < n ensures StateAt(cfg, p, s, polls, j).action != None {
      assert a[j] != None;
    }
  }

  lemma IdleBy(cfg: Config, p: Profile, s: State, t0: int, polls: seq<Poll>, k: nat, n: nat)
    requires RecoverableConfig(cfg) && PausedWell(cfg, p, s, t0) && t0 >= 0 && PolledInTime(cfg, t0, polls)
    requires k + 1 < |polls| && (s.queue == [] || polls[k].now >= s.oldest + cfg.lagSec)
    requires n <= |polls| + 1 && (n <= |polls| ==> StateAt(cfg, p, s, polls, n).action == None)
    requires forall j | 0 <= j < n :: StateAt(cfg, p, s, polls, j).action != None
    ensures 0 < n <= k + 2
  {
    StartsPaused(cfg, p, s, t0, polls);
    hide *;
    if n > k + 2 {
      ResumesAfterLag(cfg, p, s, t0, polls, k);
    }
  }

  lemma PausedBefore(cfg: Config, p: Profile, s: State, t0: int, polls: seq<Poll>, n: nat)
    requires RecoverableConfig(cfg) && PausedWell(cfg, p, s, t0) && t0 >= 0 && PolledInTime(cfg, t0, polls)
    requires n <= |polls| && forall j | 0 <= j < n :: StateAt(cfg, p, s, polls, j).action != None
    ensures forall j | 0 <= j < n :: StateAt(cfg, p, s, polls, j).action == Pause
  {
    hide *;
    forall j | 0 <= j < n ensures StateAt(cfg, p, s, polls, j).action == Pause {
      PausedOrResumed(cfg, p, s, t0, polls, j);
    }
  }

  /**
   Recovery from a state: let poll k be one that finds the original backlog lag_sec old
   (any k will do if there is no backlog).  Then by poll k + 1 the balancer
   has resumed, told the edge so, and was paused, never cancelled, until then.
   */
  lemma RecoveryFrom(cfg: Config, p: Profile, s: State, t0: int, polls: seq<Poll>, k: nat) returns (i: nat)
    requires RecoverableConfig(cfg) && PausedWell(cfg, p, s, t0) && t0 >= 0 && PolledInTime(cfg, t0, polls)
    requires k + 1 < |polls| && (s.queue == [] || polls[k].now >= s.oldest + cfg.lagSec)
    ensures i <= k + 1
    ensures StateAt(cfg, p, s, polls, i + 1).action == None
    ensures Polled(cfg, p, StateAt(cfg, p, s, polls, i), polls[i]).flow == RESUMED
    ensures forall j | 0 <= j <= i :: StateAt(cfg, p, s, polls, j).action == Pause
  {
    hide *;
    var n := FirstIdle(cfg, p, s, polls);
    IdleBy(cfg, p, s, t0, polls, k, n);
    PausedOrResumed(cfg, p, s, t0, polls, n);
    PausedBefore(cfg, p, s, t0, polls, n);
    i := n - 1;
    assert i + 1 == n;
  }

  // ---------- after any run ----------

  /**
   Recovery: after any run that ends in a pause, let nothing but polls follow,
   the first no later than lag_sec after the last escalation of the run and no
   two further apart than that.  Let poll k be one that finds the backlog
   lag_sec old (any k will do if there is no backlog).  Then by poll k + 1 the
   balancer has resumed, told the edge so, and was paused, never cancelled,
   until then.
   */
  lemma Recovery(cfg: Config, p: Profile, ops: seq<Op>, polls: seq<Poll>, k: nat) returns (i: nat)
    requires RecoverableConfig(cfg) && ClockForward(ops)
    requires Exec(cfg, p, Start(INIT), ops).state.action == Pause
    requires PolledInTime(cfg, LastEscalation(cfg, p, ops), polls)
    requires var s := Exec(cfg, p, Start(INIT), ops).state;
             k + 1 < |polls| && (s.queue == [] || polls[k].now >= s.oldest + cfg.lagSec)
    ensures var s := Exec(cfg, p, Start(INIT), ops).state;
            && i <= k + 1
            && StateAt(cfg, p, s, polls, i + 1).action == None
            && Polled(cfg, p, StateAt(cfg, p, s, polls, i), polls[i]).flow == RESUMED
            && forall j | 0 <= j <= i :: StateAt(cfg, p, s, polls, j).action == Pause
  {
    RunSettles(cfg, p, ops);
    RunFresh(cfg, p, ops);
    i := RecoveryFrom(cfg, p, Exec(cfg, p, Start(INIT), ops).state, LastEscalation(cfg, p, ops), polls, k);
  }
}
