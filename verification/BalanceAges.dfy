/**
 What the balancer knows of the age of its backlog.  It keeps one time, that of
 the frame that ended the last emptiness of the queue, which may have been sent
 long ago; so the age it acts on may exceed that of every frame it holds.
 */
module BalanceAges {
  import opened Balance
  import opened BalanceRuns

  /** A clock after the epoch that does not go back and fits 32 bits. */
  predicate ClockForward(ops: seq<Op>) {
    && (forall i | 0 <= i < |ops| && !ops[i].SpareOp? :: 0 < ops[i].now < UINT_MODULUS)
    && (forall i, j | 0 <= i < j < |ops| && !ops[i].SpareOp? && !ops[j].SpareOp? :: ops[i].now <= ops[j].now)
  }

  /** Time of the last operation, 0 before the first. */
  function LastTime(ops: seq<Op>): int {
    if ops == [] then 0
    else if ops[|ops| - 1].SpareOp? then LastTime(ops[..|ops| - 1])
    else ops[|ops| - 1].now
  }

  lemma {:induction false} LastTimeOf(ops: seq<Op>)
    ensures LastTime(ops) == 0 || exists i :: 0 <= i < |ops| && !ops[i].SpareOp? && ops[i].now == LastTime(ops)
  {
    if ops != [] && ops[|ops| - 1].SpareOp? {
      LastTimeOf(ops[..|ops| - 1]);
    }
  }

  lemma ClockPrefix(ops: seq<Op>)
    requires ClockForward(ops) && ops != []
    ensures var n := |ops| - 1;
            && ClockForward(ops[..n]) && ClockRuns(ops[..n]) && 0 <= LastTime(ops[..n]) <= LastTime(ops) < UINT_MODULUS
            && (!ops[n].SpareOp? ==> 0 < ops[n].now == LastTime(ops))
  {
    var n := |ops| - 1;
    LastTimeOf(ops[..n]);
    LastTimeOf(ops);
  }

  lemma ApplyState(cfg: Config, p: Profile, t: Trace, op: Op)
    ensures Apply(cfg, p, t, op).state == Apply(cfg, p, Start(t.state), op).state
  {
    hide Submit, Tick;
  }

  // ---------- enqueue times ----------

  /** The enqueue times of the queued frames, and of the first frame since the queue was last empty (0 if it is empty). */
  datatype Stamps = Stamps(times: seq<int>, first: int)

  function Restamp(was: Stamps, times: seq<int>, now: int): Stamps {
    Stamps(times, if times == [] then 0 else if was.times == [] then now else was.first)
  }

  function Stamp(cfg: Config, p: Profile, s: State, st: Stamps, op: Op): Stamps {
    match op
    case SubmitOp(frame, direct, now, spare) =>
      var o := Submit(cfg, p, s, frame, direct, now, spare);
      Restamp(st, if o.next.queue == [] then [] else if o.result == Ok then st.times + [now] else st.times, now)
    case TickOp(pollMs, sendOks, now, spare) =>
      var o := Tick(cfg, p, s, pollMs, sendOks, now, spare);
      Restamp(st, if o.next.queue == [] || |st.times| < |o.wire| then [] else st.times[|o.wire|..], now)
    case SpareOp => st
  }

  function StampsAt(cfg: Config, p: Profile, ops: seq<Op>): Stamps {
    if ops == [] then Stamps([], 0)
    else
      var n := |ops| - 1;
      Stamp(cfg, p, Exec(cfg, p, Start(INIT), ops[..n]).state, StampsAt(cfg, p, ops[..n]), ops[n])
  }

  /** One time a frame, in order, none later than now; and the stored time is that of the first frame. */
  ghost predicate Stamped(s: State, st: Stamps, now: int) {
    && |st.times| == |s.queue| && s.oldest == st.first
    && (forall i, j | 0 <= i < j < |st.times| :: st.times[i] <= st.times[j])
    && (forall i | 0 <= i < |st.times| :: 0 < st.first <= st.times[i] <= now)
  }

  lemma SubmitOldest(cfg: Config, p: Profile, s: State, frame: Frame, direct: Result, now: int, spare: bool)
    requires !Bypasses(cfg, p) && (s.queue == [] <==> s.oldest == 0)
    ensures var o := Submit(cfg, p, s, frame, direct, now, spare);
            || o.next.queue == []
            || (o.result != Ok && o.next.queue == s.queue && o.next.oldest == s.oldest)
            || (o.result == Ok && o.next.queue == s.queue + [frame] && o.next.oldest == if s.queue == [] then now else s.oldest)
  {
    EscalateKeepsOrClears(cfg, p, s, now, spare);
    EscalateKeepsOrClears(cfg, p, Enqueue(s, frame, now), now, spare);
    hide Escalate;
  }

  lemma TakeStamps(s: State, next: State, st: Stamps, took: bool, before: int, now: int)
    requires Stamped(s, st, before) && before <= now && 0 < now && (s.queue == [] ==> s.oldest == 0)
    requires || (next.queue == [] && next.oldest == 0)
             || (|next.queue| == |s.queue| + (if took then 1 else 0) && next.oldest == if took && s.queue == [] then now else s.oldest)
    ensures Stamped(next, Restamp(st, if next.queue == [] then [] else if took then st.times + [now] else st.times, now), now)
  {
    if |st.times| > 0 {
      assert st.times[0] <= before;
    }
  }

  lemma SubmitStamps(cfg: Config, p: Profile, s: State, st: Stamps, op: Op, before: int)
    requires Governed(cfg) && Settled(cfg, p, s) && Stamped(s, st, before) && op.SubmitOp? && 0 < op.now && before <= op.now
    ensures Stamped(Apply(cfg, p, Start(s), op).state, Stamp(cfg, p, s, st, op), op.now)
  {
    SubmitSettles(cfg, p, s, op.frame, op.direct, op.now, op.spare);
    if !Bypasses(cfg, p) {
      SubmitOldest(cfg, p, s, op.frame, op.direct, op.now, op.spare);
    }
    var o := Submit(cfg, p, s, op.frame, op.direct, op.now, op.spare);
    hide Submit, Stamped, Restamp, TotalBytes, AirSeconds;
    TakeStamps(s, o.next, st, o.result == Ok, before, op.now);
  }

  lemma TickOldest(cfg: Config, p: Profile, s: State, pollMs: nat, sendOks: nat, now: int, spare: bool)
    requires s.queue == [] <==> s.oldest == 0
    ensures var o := Tick(cfg, p, s, pollMs, sendOks, now, spare);
            || (o.next.queue == [] && o.next.oldest == 0)
            || (|o.next.queue| == |s.queue| - |o.wire| && o.next.oldest == s.oldest)
  {
    TickSplits(cfg, p, s, pollMs, sendOks, now, spare);
    EscalateKeepsOrClears(cfg, p, s, now, spare);
    EscalateKeepsOrClears(cfg, p, Drained(p, s, pollMs, sendOks).0, now, spare);
    hide Escalate;
  }

  lemma LeaveStamps(s: State, next: State, st: Stamps, left: nat, before: int, now: int)
    requires Stamped(s, st, before) && before <= now && left <= |s.queue|
    requires (next.queue == [] && next.oldest == 0) || (|next.queue| == |s.queue| - left && next.oldest == s.oldest && next.queue != [])
    ensures Stamped(next, Restamp(st, if next.queue == [] || |st.times| < left then [] else st.times[left..], now), now)
  {
  }

  lemma TickStamps(cfg: Config, p: Profile, s: State, st: Stamps, op: Op, before: int)
    requires Governed(cfg) && Settled(cfg, p, s) && Stamped(s, st, before) && op.TickOp? && 0 < op.now && before <= op.now
    ensures Stamped(Apply(cfg, p, Start(s), op).state, Stamp(cfg, p, s, st, op), op.now)
  {
    TickSettles(cfg, p, s, op.pollMs, op.sendOks, op.now, op.spare);
    TickOldest(cfg, p, s, op.pollMs, op.sendOks, op.now, op.spare);
    TickSplits(cfg, p, s, op.pollMs, op.sendOks, op.now, op.spare);
    var o := Tick(cfg, p, s, op.pollMs, op.sendOks, op.now, op.spare);
    hide Tick, Stamped, Restamp, TotalBytes, AirSeconds;
    LeaveStamps(s, o.next, st, |o.wire|, before, op.now);
  }

  /**
   In every reachable state the stored time is the enqueue time of the first
   frame since the queue was last empty; it is never later than that of the
   frame at the head.
   */
  lemma {:induction false} OldestIsFirst(cfg: Config, p: Profile, ops: seq<Op>)
    requires Governed(cfg) && ClockForward(ops)
    ensures Stamped(Exec(cfg, p, Start(INIT), ops).state, StampsAt(cfg, p, ops), LastTime(ops))
  {
    if ops != [] {
      var n := |ops| - 1;
      var before := ops[..n];
      ClockPrefix(ops);
      OldestIsFirst(cfg, p, before);
      RunSettles(cfg, p, before);
      var t := Exec(cfg, p, Start(INIT), before);
      ApplyState(cfg, p, t, ops[n]);
      if ops[n].SubmitOp? {
        SubmitStamps(cfg, p, t.state, StampsAt(cfg, p, before), ops[n], LastTime(before));
      } else if ops[n].TickOp? {
        TickStamps(cfg, p, t.state, StampsAt(cfg, p, before), ops[n], LastTime(before));
      }
      hide Settled, Submit, Tick;
    }
  }

  /** The lag estimate is the larger of the air time and the age of that first frame, sent or not. */
  lemma LagIsFirstAge(cfg: Config, p: Profile, ops: seq<Op>, now: int)
    requires Governed(cfg) && ClockForward(ops) && LastTime(ops) <= now < UINT_MODULUS
    ensures var s := Exec(cfg, p, Start(INIT), ops).state;
            var age := now - StampsAt(cfg, p, ops).first;
            s.queue != [] ==> EstimatedLag(p, s, now) == if age > AirSeconds(p, s) then age else AirSeconds(p, s)
  {
    OldestIsFirst(cfg, p, ops);
    RunSettles(cfg, p, ops);
    var s := Exec(cfg, p, Start(INIT), ops).state;
    hide Exec, StampsAt;
    if s.queue != [] {
      assert StampsAt(cfg, p, ops).first <= StampsAt(cfg, p, ops).times[0] <= now;
      LagMeaning(p, s, now);
    }
  }

  const DEFAULTS := Config(true, 5, 4096, 16384, 65536)

  /** Two frames within a second; one tick sends the first. */
  function PartialDrain(first: Frame, second: Frame): seq<Op> {
    [SubmitOp(first, Ok, 100, false), SubmitOp(second, Ok, 101, false), TickOp(50, 2, 101, false)]
  }

  /** Well below the default thresholds nothing is escalated. */
  lemma CalmEscalation(s: State, now: int)
    requires s.action == None && TotalBytes(s.queue) < 1000 && now <= s.oldest + 1
    ensures Escalate(DEFAULTS, Profile(true, 9600), s, now, false) == (s, [])
  {
  }

  lemma ThreeOps(cfg: Config, p: Profile, a: Op, b: Op, c: Op)
    ensures var ops := [a, b, c];
            var t1 := Apply(cfg, p, Start(INIT), a);
            var t2 := Apply(cfg, p, t1, b);
            var st1 := Stamp(cfg, p, INIT, Stamps([], 0), a);
            && Exec(cfg, p, Start(INIT), ops) == Apply(cfg, p, t2, c)
            && StampsAt(cfg, p, ops) == Stamp(cfg, p, t2.state, Stamp(cfg, p, t1.state, st1, b), c)
  {
    hide Apply, Stamp;
    var ops := [a, b, c];
    assert ops[..2] == [a, b] && [a, b][..1] == [a] && [a][..0] == [];
    assert Exec(cfg, p, Start(INIT), [a]) == Apply(cfg, p, Exec(cfg, p, Start(INIT), []), a);
    assert StampsAt(cfg, p, [a]) == Stamp(cfg, p, INIT, Stamps([], 0), a);
    assert Exec(cfg, p, Start(INIT), [a, b]) == Apply(cfg, p, Exec(cfg, p, Start(INIT), [a]), b);
  }

  lemma BytesOfTwo(first: Frame, second: Frame)
    ensures TotalBytes([first]) == |first| && TotalBytes([second]) == |second| && TotalBytes([first, second]) == |first| + |second|
  {
    assert [first][1..] == [];
    assert [second][1..] == [];
    assert [first, second][1..] == [second];
  }

  lemma PartialDrainStates(first: Frame, second: Frame)
    requires |first| == 60 && |second| == 20
    ensures var p := Profile(true, 9600);
            var s1 := State([first], None, None, 0, 100);
            var s2 := State([first, second], None, None, 0, 100);
            && Submit(DEFAULTS, p, INIT, first, Ok, 100, false) == SubmitOutcome(s1, Ok, [], [])
            && Submit(DEFAULTS, p, s1, second, Ok, 101, false) == SubmitOutcome(s2, Ok, [], [])
            && Tick(DEFAULTS, p, s2, 50, 2, 101, false) == TickOutcome(State([second], None, None, 0, 100), TickOk, [first], [])
  {
    var p := Profile(true, 9600);
    var s1 := State([first], None, None, 0, 100);
    var s2 := State([first, second], None, None, 0, 100);
    BytesOfTwo(first, second);
    CalmEscalation(s1, 100);
    CalmEscalation(s2, 101);
    CalmEscalation(State([second], None, None, 0, 100), 101);
    assert [] + [first] == [first] && [first] + [second] == [first, second];
    assert DrainCount([first, second], 60, 2) == 1;
    assert [first, second][1..] == [second];
    hide Escalate, DrainCount, TotalBytes;
    assert Enqueue(INIT, first, 100) == s1;
    assert Enqueue(s1, second, 101) == s2;
    assert Drained(p, s2, 50, 2) == (State([second], None, None, 0, 100), 1);
  }

  lemma PartialDrainEnds(first: Frame, second: Frame)
    requires |first| == 60 && |second| == 20
    ensures var ops := PartialDrain(first, second);
            var p := Profile(true, 9600);
            && Exec(DEFAULTS, p, Start(INIT), ops).state == State([second], None, None, 0, 100)
            && StampsAt(DEFAULTS, p, ops) == Stamps([101], 100)
  {
    ThreeOps(DEFAULTS, Profile(true, 9600), SubmitOp(first, Ok, 100, false), SubmitOp(second, Ok, 101, false), TickOp(50, 2, 101, false));
    PartialDrainStates(first, second);
    assert [100, 101][1..] == [101];
    hide Submit, Tick, Exec, StampsAt;
  }

  /** So the estimate can exceed the age of every queued frame: here 3 seconds for a backlog of one frame 2 seconds old. */
  lemma AgeOfSentFrame(first: Frame, second: Frame)
    requires |first| == 60 && |second| == 20
    ensures var ops := PartialDrain(first, second);
            var p := Profile(true, 9600);
            var s := Exec(DEFAULTS, p, Start(INIT), ops).state;
            && ClockForward(ops) && s.queue == [second] && StampsAt(DEFAULTS, p, ops).times == [101]
            && EstimatedLag(p, s, 103) == 3 && AirSeconds(p, s) == 0
  {
    PartialDrainClock(first, second);
    PartialDrainEnds(first, second);
    SmallBacklog(second);
    hide *;
  }

  lemma PartialDrainClock(first: Frame, second: Frame)
    ensures ClockForward(PartialDrain(first, second))
  {
  }

  lemma SmallBacklog(f: Frame)
    requires |f| == 20
    ensures var s := State([f], None, None, 0, 100);
            EstimatedLag(Profile(true, 9600), s, 103) == 3 && AirSeconds(Profile(true, 9600), s) == 0
  {
    BytesOfTwo(f, f);
  }

  // ---------- freshness ----------

  /** Whether the operation gets as far as escalating. */
  predicate Escalates(cfg: Config, p: Profile, s: State, op: Op) {
    match op
    case SubmitOp(frame, _, _, _) =>
      frame != [] && !Bypasses(cfg, p) && s.action != Cancel && (|s.queue| >= QUEUE_MAX || |frame| <= MAX_FRAME)
    case TickOp(_, _, _, _) => s.action != Cancel
    case SpareOp => false
  }

  /** Time of the last operation of a run that escalated, 0 before the first. */
  function LastEscalation(cfg: Config, p: Profile, ops: seq<Op>): int {
    if ops == [] then 0
    else
      var n := |ops| - 1;
      if Escalates(cfg, p, Exec(cfg, p, Start(INIT), ops[..n]).state, ops[n]) then ops[n].now else LastEscalation(cfg, p, ops[..n])
  }

  lemma SubmitFresh(cfg: Config, p: Profile, s: State, op: Op)
    requires Governed(cfg) && Settled(cfg, p, s) && op.SubmitOp? && 0 < op.now < UINT_MODULUS
    requires s.queue != [] ==> s.oldest <= op.now
    ensures var s1 := Apply(cfg, p, Start(s), op).state;
            if Escalates(cfg, p, s, op) then (s1.queue != [] ==> s1.oldest <= op.now) && Fresh(cfg, s1, op.now)
            else s1 == s
  {
    if Escalates(cfg, p, s, op) {
      var s0 := if |s.queue| >= QUEUE_MAX then s else Enqueue(s, op.frame, op.now);
      if |s.queue| < QUEUE_MAX {
        EnqueueShape(p, s, op.frame, op.now);
      }
      EscalateFresh(cfg, p, s0, op.now, op.spare);
      EscalateKeepsOrClears(cfg, p, s0, op.now, op.spare);
    }
    hide Escalate;
  }

  lemma TickFresh(cfg: Config, p: Profile, s: State, op: Op)
    requires Governed(cfg) && Settled(cfg, p, s) && op.TickOp? && 0 < op.now < UINT_MODULUS
    requires s.queue != [] ==> s.oldest <= op.now
    ensures var s1 := Apply(cfg, p, Start(s), op).state;
            if Escalates(cfg, p, s, op) then (s1.queue != [] ==> s1.oldest <= op.now) && Fresh(cfg, s1, op.now)
            else s1 == s
  {
    if s.action != Cancel {
      var s0 := if Drains(cfg, s) then Drained(p, s, op.pollMs, op.sendOks).0 else s;
      if Drains(cfg, s) {
        DrainedShape(p, s, op.pollMs, op.sendOks);
      }
      EscalateFresh(cfg, p, s0, op.now, op.spare);
      EscalateKeepsOrClears(cfg, p, s0, op.now, op.spare);
    }
    hide Escalate;
  }

  /** In every reachable state the backlog was fresh, by the stored time, when last looked at. */
  lemma {:induction false} RunFresh(cfg: Config, p: Profile, ops: seq<Op>)
    requires Governed(cfg) && ClockForward(ops)
    ensures var s := Exec(cfg, p, Start(INIT), ops).state;
            var t := LastEscalation(cfg, p, ops);
            && 0 <= t <= LastTime(ops) && s.oldest <= t && Fresh(cfg, s, t)
  {
    if ops != [] {
      var n := |ops| - 1;
      var before := ops[..n];
      ClockPrefix(ops);
      RunFresh(cfg, p, before);
      RunSettles(cfg, p, before);
      RunSettles(cfg, p, ops);
      var t := Exec(cfg, p, Start(INIT), before);
      ApplyState(cfg, p, t, ops[n]);
      if ops[n].SubmitOp? {
        SubmitFresh(cfg, p, t.state, ops[n]);
      } else if ops[n].TickOp? {
        TickFresh(cfg, p, t.state, ops[n]);
      }
      hide Submit, Tick;
    }
  }
}
