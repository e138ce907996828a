/**
 What holds of the load balancer over whole runs: where it may rest, what
 becomes of every accepted frame, and how fast it drains.
 */
module BalanceRuns {
  import opened Bytes
  import opened Balance

  /** All thresholds are in use. */
  predicate Governed(cfg: Config) {
    cfg.enabled && cfg.lagSec > 0 && cfg.queuePause > 0 && cfg.queueBreak > 0 && cfg.queueCancel > 0
  }

  /** The part of a resting state that no threshold matters for. */
  ghost predicate Shape(p: Profile, s: State) {
    && |s.queue| <= QUEUE_MAX
    && (forall i | 0 <= i < |s.queue| :: 1 <= |s.queue[i]| <= MAX_FRAME)
    && s.accum < UNITS_PER_BYTE
    && s.oldest >= 0 && (s.queue == [] <==> s.oldest == 0)
    && (!p.low ==> s.queue == [])
    && match s.action
       case None => s.lastSent == None || s.lastSent == Resume
       case Pause => s.lastSent == None || s.lastSent == Pause || s.lastSent == Cancel
       case Cancel => p.low && s.queue == [] && s.lastSent == Cancel
       case _ => false
  }

  /** Seconds on the air that the backlog needs. */
  function AirSeconds(p: Profile, s: State): nat {
    TotalBytes(s.queue) * 8 / Baud(p)
  }

  /** Where the balancer rests between operations. */
  ghost predicate Settled(cfg: Config, p: Profile, s: State) {
    && Shape(p, s)
    && TotalBytes(s.queue) < cfg.queueBreak
    && AirSeconds(p, s) < cfg.lagSec
    && (s.action == None && s.queue != [] ==> TotalBytes(s.queue) < cfg.queuePause && AirSeconds(p, s) < HalfLag(cfg))
  }

  /** By the time it keeps, the backlog is younger than the permitted lag. */
  predicate Fresh(cfg: Config, s: State, now: int) {
    s.queue != [] ==> now - s.oldest < cfg.lagSec
  }

  // ---------- arithmetic of the backlog ----------

  lemma {:induction false} TotalBytesAppend(q: seq<Frame>, r: seq<Frame>)
    ensures TotalBytes(q + r) == TotalBytes(q) + TotalBytes(r)
  {
    if q == [] {
      assert q + r == r;
    } else {
      assert (q + r)[1..] == q[1..] + r;
      TotalBytesAppend(q[1..], r);
    }
  }

  lemma {:induction false} TotalBytesBound(q: seq<Frame>)
    requires forall i | 0 <= i < |q| :: 1 <= |q[i]| <= MAX_FRAME
    ensures |q| <= TotalBytes(q) <= |q| * MAX_FRAME
  {
    if q != [] {
      TotalBytesBound(q[1..]);
    }
  }

  /** A queue that fits the ring never makes the lag estimate wrap. */
  lemma AirSecondsBound(p: Profile, q: seq<Frame>)
    requires |q| <= QUEUE_MAX && forall i | 0 <= i < |q| :: 1 <= |q[i]| <= MAX_FRAME
    ensures TotalBytes(q) * 8 / Baud(p) < UINT_MODULUS
  {
    TotalBytesBound(q);
    QuotientBound(TotalBytes(q) * 8, Baud(p));
  }

  lemma QuotientBound(a: nat, b: nat)
    requires b > 0
    ensures 0 <= a / b <= a
  {
    var q := a / b;
    assert q >= 0;
    MulGrows(q, b);
  }

  lemma MulGrows(x: nat, y: nat)
    requires y > 0
    ensures x * y >= x
  {
  }

  /** The estimate is the larger of the air time and the age of the time kept (as a 32-bit number). */
  lemma LagMeaning(p: Profile, s: State, now: int)
    requires Shape(p, s) && s.queue != []
    ensures EstimatedLag(p, s, now) >= AirSeconds(p, s)
    ensures 0 <= now - s.oldest < UINT_MODULUS ==>
              EstimatedLag(p, s, now) == if now - s.oldest > AirSeconds(p, s) then now - s.oldest else AirSeconds(p, s)
  {
    AirSecondsBound(p, s.queue);
    TotalBytesBound(s.queue);
  }

  lemma EmptyLag(p: Profile, s: State, now: int)
    requires s.queue == []
    ensures EstimatedLag(p, s, now) == 0 == AirSeconds(p, s)
  {
  }

  // ---------- resting states ----------

  /** The decision alone: what action follows, and what the edge was last told. */
  lemma EscalateActions(cfg: Config, p: Profile, s: State, now: int, spare: bool)
    requires Governed(cfg) && Shape(p, s)
    ensures var s1 := Escalate(cfg, p, s, now, spare).0;
            match s1.action
            case None => s1.lastSent == None || s1.lastSent == Resume
            case Pause => s1.lastSent == None || s1.lastSent == Pause || s1.lastSent == Cancel
            case Cancel => p.low && s1.queue == [] && s1.lastSent == Cancel
            case _ => false
  {
    if s.queue == [] {
      EmptyLag(p, s, now);
    }
  }

  lemma EscalateShape(cfg: Config, p: Profile, s: State, now: int, spare: bool)
    requires Governed(cfg) && Shape(p, s)
    ensures Shape(p, Escalate(cfg, p, s, now, spare).0)
  {
    EscalateActions(cfg, p, s, now, spare);
    EscalateKeepsOrClears(cfg, p, s, now, spare);
  }

  /** Whatever pressure an operation built up, escalation leaves the balancer settled. */
  lemma EscalateSettles(cfg: Config, p: Profile, s: State, now: int, spare: bool)
    requires Governed(cfg) && Shape(p, s)
    ensures Settled(cfg, p, Escalate(cfg, p, s, now, spare).0)
  {
    var s1 := Escalate(cfg, p, s, now, spare).0;
    EscalateShape(cfg, p, s, now, spare);
    EscalateKeepsOrClears(cfg, p, s, now, spare);
    if s1.queue == [] {
      EmptyLag(p, s1, now);
    } else {
      LagMeaning(p, s, now);
      assert AirSeconds(p, s1) == AirSeconds(p, s);
    }
  }

  lemma EscalateFresh(cfg: Config, p: Profile, s: State, now: int, spare: bool)
    requires Governed(cfg) && Shape(p, s)
    requires s.queue != [] ==> 0 <= now - s.oldest < UINT_MODULUS
    ensures Fresh(cfg, Escalate(cfg, p, s, now, spare).0, now)
  {
    if s.queue != [] {
      LagMeaning(p, s, now);
    }
  }

  lemma DrainedShape(p: Profile, s: State, pollMs: nat, sendOks: nat)
    requires Shape(p, s) && s.queue != []
    ensures Shape(p, Drained(p, s, pollMs, sendOks).0)
  {
  }

  lemma EnqueueShape(p: Profile, s: State, frame: Frame, now: int)
    requires Shape(p, s) && p.low && s.action != Cancel && now > 0
    requires 1 <= |frame| <= MAX_FRAME && |s.queue| < QUEUE_MAX
    ensures Shape(p, Enqueue(s, frame, now))
  {
  }

  lemma SubmitSettles(cfg: Config, p: Profile, s: State, frame: Frame, direct: Result, now: int, spare: bool)
    requires Governed(cfg) && Settled(cfg, p, s) && now > 0
    ensures Settled(cfg, p, Submit(cfg, p, s, frame, direct, now, spare).next)
  {
    if |frame| != 0 && p.low && s.action != Cancel {
      if |s.queue| >= QUEUE_MAX {
        EscalateSettles(cfg, p, s, now, spare);
      } else if |frame| <= MAX_FRAME {
        EnqueueShape(p, s, frame, now);
        EscalateSettles(cfg, p, Enqueue(s, frame, now), now, spare);
      }
    }
  }

  lemma TickSettles(cfg: Config, p: Profile, s: State, pollMs: nat, sendOks: nat, now: int, spare: bool)
    requires Governed(cfg) && Settled(cfg, p, s)
    ensures Settled(cfg, p, Tick(cfg, p, s, pollMs, sendOks, now, spare).next)
  {
    if s.action == Pause || s.queue == [] {
      EscalateSettles(cfg, p, s, now, spare);
    } else if s.action != Cancel {
      DrainedShape(p, s, pollMs, sendOks);
      EscalateSettles(cfg, p, Drained(p, s, pollMs, sendOks).0, now, spare);
    }
  }

  // ---------- runs ----------

  datatype Op =
    | SubmitOp(frame: Frame, direct: Result, now: int, spare: bool)
    | TickOp(pollMs: nat, sendOks: nat, now: int, spare: bool)
    | SpareOp

  /** A state with the history that led to it. */
  datatype Trace = Trace(state: State, accepted: seq<Frame>, fates: seq<Fate>, wire: seq<Frame>)

  /** An escalation drops the whole queue or nothing. */
  function DroppedBy(before: seq<Frame>, after: seq<Frame>): seq<Fate> {
    if after == before then [] else seq(|before|, i requires 0 <= i < |before| => Dropped(before[i]))
  }

  function SentFates(q: seq<Frame>): seq<Fate> {
    seq(|q|, i requires 0 <= i < |q| => Sent(q[i]))
  }

  function Apply(cfg: Config, p: Profile, t: Trace, op: Op): Trace {
    match op
    case SubmitOp(frame, direct, now, spare) =>
      var o := Submit(cfg, p, t.state, frame, direct, now, spare);
      var taken := if o.result == Ok then [frame] else [];
      if Bypasses(cfg, p) then
        Trace(o.next, t.accepted + taken, t.fates + SentFates(o.wire), t.wire + o.wire)
      else
        Trace(o.next, t.accepted + taken, t.fates + DroppedBy(t.state.queue + taken, o.next.queue), t.wire + o.wire)
    case TickOp(pollMs, sendOks, now, spare) =>
      var o := Tick(cfg, p, t.state, pollMs, sendOks, now, spare);
      var k := if |o.wire| <= |t.state.queue| then |o.wire| else |t.state.queue|;
      Trace(o.next, t.accepted, t.fates + SentFates(o.wire) + DroppedBy(t.state.queue[k..], o.next.queue), t.wire + o.wire)
    case SpareOp =>
      t.(state := SparedCancel(t.state))
  }

  function Exec(cfg: Config, p: Profile, t: Trace, ops: seq<Op>): Trace {
    if ops == [] then t else Apply(cfg, p, Exec(cfg, p, t, ops[..|ops| - 1]), ops[|ops| - 1])
  }

  function Start(s: State): Trace {
    Trace(s, [], [], [])
  }

  predicate ClockRuns(ops: seq<Op>) {
    forall i | 0 <= i < |ops| && !ops[i].SpareOp? :: ops[i].now > 0
  }

  lemma ApplySettles(cfg: Config, p: Profile, t: Trace, op: Op)
    requires Governed(cfg) && Settled(cfg, p, t.state)
    requires !op.SpareOp? ==> op.now > 0
    ensures Settled(cfg, p, Apply(cfg, p, t, op).state)
  {
    match op
    case SubmitOp(frame, direct, now, spare) => SubmitSettles(cfg, p, t.state, frame, direct, now, spare);
    case TickOp(pollMs, sendOks, now, spare) => TickSettles(cfg, p, t.state, pollMs, sendOks, now, spare);
    case SpareOp =>
  }

  /** Every reachable state is settled: the backlog and resting-state bound. */
  lemma {:induction false} RunSettles(cfg: Config, p: Profile, ops: seq<Op>)
    requires Governed(cfg) && ClockRuns(ops)
    ensures Settled(cfg, p, Exec(cfg, p, Start(INIT), ops).state)
  {
    if ops == [] {
      assert Settled(cfg, p, INIT);
    } else {
      RunSettles(cfg, p, ops[..|ops| - 1]);
      ApplySettles(cfg, p, Exec(cfg, p, Start(INIT), ops[..|ops| - 1]), ops[|ops| - 1]);
    }
  }

  /** The bound in plain terms. */
  lemma BacklogBound(cfg: Config, p: Profile, ops: seq<Op>)
    requires Governed(cfg) && ClockRuns(ops)
    ensures var s := Exec(cfg, p, Start(INIT), ops).state;
            && (s.action == None || s.action == Pause || s.action == Cancel)
            && (s.action == Cancel ==> s.queue == [] && p.low)
            && TotalBytes(s.queue) < cfg.queueBreak
            && TotalBytes(s.queue) * 8 / Baud(p) < cfg.lagSec
            && |s.queue| <= QUEUE_MAX
  {
    RunSettles(cfg, p, ops);
  }

  /** Once cancelled, only a spare changes anything at all. */
  lemma {:induction false} CancelSticks(cfg: Config, p: Profile, t: Trace, ops: seq<Op>)
    requires p.low && cfg.enabled && t.state.action == Cancel
    requires forall i | 0 <= i < |ops| :: !ops[i].SpareOp?
    ensures Exec(cfg, p, t, ops) == t
  {
    if ops != [] {
      CancelSticks(cfg, p, t, ops[..|ops| - 1]);
      assert DroppedBy(t.state.queue + [], t.state.queue) == [] && SentFates([]) == [];
      assert t.state.queue[0..] == t.state.queue;
    }
  }

  /** A high-bandwidth link with a lag allowance of two seconds or more is never throttled. */
  lemma {:induction false} HighBandwidthStaysIdle(cfg: Config, p: Profile, ops: seq<Op>)
    requires Governed(cfg) && cfg.lagSec >= 2 && !p.low
    ensures Exec(cfg, p, Start(INIT), ops).state == INIT
  {
    if ops != [] {
      HighBandwidthStaysIdle(cfg, p, ops[..|ops| - 1]);
    }
  }

  // ---------- conservation and order ----------

  function FramesOf(fates: seq<Fate>): seq<Frame> {
    seq(|fates|, i requires 0 <= i < |fates| => fates[i].frame)
  }

  function SentOnly(fates: seq<Fate>): seq<Frame> {
    if fates == [] then []
    else SentOnly(fates[..|fates| - 1]) + (if fates[|fates| - 1].Sent? then [fates[|fates| - 1].frame] else [])
  }

  function DroppedOnly(fates: seq<Fate>): seq<Frame> {
    if fates == [] then []
    else DroppedOnly(fates[..|fates| - 1]) + (if fates[|fates| - 1].Dropped? then [fates[|fates| - 1].frame] else [])
  }

  lemma {:induction false} SentOnlySent(fates: seq<Fate>, q: seq<Frame>)
    ensures SentOnly(fates + SentFates(q)) == SentOnly(fates) + q
  {
    if q == [] {
      assert fates + SentFates(q) == fates;
    } else {
      var n := |q| - 1;
      SentOnlySent(fates, q[..n]);
      assert (fates + SentFates(q))[..|fates| + n] == fates + SentFates(q[..n]);
      assert q == q[..n] + [q[n]];
    }
  }

  lemma {:induction false} SentOnlyDropped(fates: seq<Fate>, more: seq<Fate>)
    requires forall i | 0 <= i < |more| :: more[i].Dropped?
    ensures SentOnly(fates + more) == SentOnly(fates)
  {
    if more == [] {
      assert fates + more == fates;
    } else {
      var n := |more| - 1;
      SentOnlyDropped(fates, more[..n]);
      assert (fates + more)[..|fates| + n] == fates + more[..n];
    }
  }

  /**
   Conservation and order: each accepted frame is sent, dropped or still
   queued, exactly once, and leaves in the order it was accepted; the wire
   carries exactly the sent ones, byte for byte.
   */
  ghost predicate Conserved(t: Trace) {
    && t.accepted == FramesOf(t.fates) + t.state.queue
    && t.wire == SentOnly(t.fates)
  }

  lemma EscalateKeepsOrClears(cfg: Config, p: Profile, s: State, now: int, spare: bool)
    ensures var s1 := Escalate(cfg, p, s, now, spare).0;
            || (s1.queue == s.queue && s1.oldest == s.oldest && s1.accum == s.accum)
            || (s1.queue == [] && s1.oldest == 0 && s1.accum == 0)
  {
  }

  /** A submit on a low-bandwidth link sends nothing; it queues what it takes and then keeps all or drops all. */
  lemma SubmitSplits(cfg: Config, p: Profile, s: State, frame: Frame, direct: Result, now: int, spare: bool)
    requires !Bypasses(cfg, p)
    ensures var o := Submit(cfg, p, s, frame, direct, now, spare);
            var all := s.queue + (if o.result == Ok then [frame] else []);
            o.wire == [] && (o.next.queue == all || o.next.queue == [])
  {
    EscalateKeepsOrClears(cfg, p, s, now, spare);
    EscalateKeepsOrClears(cfg, p, Enqueue(s, frame, now), now, spare);
  }

  lemma SubmitConserves(cfg: Config, p: Profile, t: Trace, op: Op)
    requires !Bypasses(cfg, p) && Conserved(t) && op.SubmitOp?
    ensures Conserved(Apply(cfg, p, t, op))
  {
    SubmitSplits(cfg, p, t.state, op.frame, op.direct, op.now, op.spare);
    var o := Submit(cfg, p, t.state, op.frame, op.direct, op.now, op.spare);
    TakesConserve(t, if o.result == Ok then [op.frame] else [], o.next);
    assert t.wire + o.wire == t.wire;
  }

  lemma TakesConserve(t: Trace, taken: seq<Frame>, next: State)
    requires Conserved(t) && (next.queue == t.state.queue + taken || next.queue == [])
    ensures Conserved(Trace(next, t.accepted + taken, t.fates + DroppedBy(t.state.queue + taken, next.queue), t.wire))
  {
    var all := t.state.queue + taken;
    assert FramesOf(t.fates + DroppedBy(all, next.queue)) + next.queue == FramesOf(t.fates) + t.state.queue + taken;
    SentOnlyDropped(t.fates, DroppedBy(all, next.queue));
  }

  /** A tick sends a prefix of the queue and then keeps the rest or drops all of it. */
  lemma TickSplits(cfg: Config, p: Profile, s: State, pollMs: nat, sendOks: nat, now: int, spare: bool)
    ensures var o := Tick(cfg, p, s, pollMs, sendOks, now, spare);
            && |o.wire| <= |s.queue| && o.wire == s.queue[..|o.wire|]
            && (o.next.queue == s.queue[|o.wire|..] || o.next.queue == [])
  {
    if Drains(cfg, s) {
      EscalateKeepsOrClears(cfg, p, Drained(p, s, pollMs, sendOks).0, now, spare);
    } else {
      EscalateKeepsOrClears(cfg, p, s, now, spare);
      assert s.queue[0..] == s.queue;
    }
  }

  lemma TickConserves(cfg: Config, p: Profile, t: Trace, op: Op)
    requires Conserved(t) && op.TickOp?
    ensures Conserved(Apply(cfg, p, t, op))
  {
    var s := t.state;
    TickSplits(cfg, p, s, op.pollMs, op.sendOks, op.now, op.spare);
    var o := Tick(cfg, p, s, op.pollMs, op.sendOks, op.now, op.spare);
    LeavesConserve(t, o.wire, s.queue[|o.wire|..], o.next);
  }

  lemma LeavesConserve(t: Trace, sent: seq<Frame>, rest: seq<Frame>, next: State)
    requires Conserved(t) && t.state.queue == sent + rest && (next.queue == rest || next.queue == [])
    ensures Conserved(Trace(next, t.accepted, t.fates + SentFates(sent) + DroppedBy(rest, next.queue), t.wire + sent))
  {
    var fates1 := t.fates + SentFates(sent);
    assert FramesOf(fates1 + DroppedBy(rest, next.queue)) + next.queue == FramesOf(t.fates) + (sent + rest);
    SentOnlySent(t.fates, sent);
    SentOnlyDropped(fates1, DroppedBy(rest, next.queue));
  }

  lemma {:induction false} RunConserves(cfg: Config, p: Profile, ops: seq<Op>)
    requires cfg.enabled && p.low
    ensures Conserved(Exec(cfg, p, Start(INIT), ops))
  {
    if ops != [] {
      var t := Exec(cfg, p, Start(INIT), ops[..|ops| - 1]);
      RunConserves(cfg, p, ops[..|ops| - 1]);
      var op := ops[|ops| - 1];
      match op
      case SubmitOp(_, _, _, _) => SubmitConserves(cfg, p, t, op);
      case TickOp(_, _, _, _) => TickConserves(cfg, p, t, op);
      case SpareOp =>
    }
  }

  lemma {:induction false} FatesPartition(fates: seq<Fate>)
    ensures multiset(FramesOf(fates)) == multiset(SentOnly(fates)) + multiset(DroppedOnly(fates))
  {
    if fates != [] {
      var n := |fates| - 1;
      FatesPartition(fates[..n]);
      assert FramesOf(fates) == FramesOf(fates[..n]) + [fates[n].frame];
    }
  }

  /** Nothing is lost or doubled: accepted = sent + dropped + queued, with multiplicity. */
  lemma NothingLost(cfg: Config, p: Profile, ops: seq<Op>)
    requires cfg.enabled && p.low
    ensures var t := Exec(cfg, p, Start(INIT), ops);
            multiset(t.accepted) == multiset(t.wire) + multiset(DroppedOnly(t.fates)) + multiset(t.state.queue)
  {
    RunConserves(cfg, p, ops);
    FatesPartition(Exec(cfg, p, Start(INIT), ops).fates);
  }

  /** The backlog or its lag has reached the break or the cancel threshold. */
  predicate UnderPressure(cfg: Config, p: Profile, s: State, now: int) {
    TotalBytes(s.queue) >= cfg.queueBreak || EstimatedLag(p, s, now) >= cfg.lagSec || Overloaded(cfg, p, s, EstimatedLag(p, s, now))
  }

  /** Escalation drops the backlog, if there is one, exactly under pressure. */
  lemma DropsUnderPressure(cfg: Config, p: Profile, s: State, now: int, spare: bool)
    requires cfg.enabled && s.action != Cancel && s.action != Break && s.queue != []
    ensures Escalate(cfg, p, s, now, spare).0.queue == [] <==> UnderPressure(cfg, p, s, now)
    ensures Escalate(cfg, p, s, now, spare).0.queue == s.queue <==> !UnderPressure(cfg, p, s, now)
  {
  }

  /** What an operation leaves for escalation to look at. */
  function Loaded(cfg: Config, p: Profile, s: State, op: Op): State {
    match op
    case SubmitOp(frame, _, now, _) => if |s.queue| >= QUEUE_MAX then s else Enqueue(s, frame, now)
    case TickOp(pollMs, sendOks, _, _) => if Drains(cfg, s) then Drained(p, s, pollMs, sendOks).0 else s
    case SpareOp => s
  }

  /** The operation found the frame in the backlog under pressure, and left nothing queued. */
  ghost predicate DroppedAt(cfg: Config, p: Profile, s: State, op: Op, frame: Frame) {
    && !op.SpareOp? && frame in Loaded(cfg, p, s, op).queue
    && UnderPressure(cfg, p, Loaded(cfg, p, s, op), op.now)
    && Apply(cfg, p, Start(s), op).state.queue == []
  }

  lemma SubmitDrops(cfg: Config, p: Profile, s: State, op: Op)
    requires !Bypasses(cfg, p) && Shape(p, s) && op.SubmitOp?
    ensures var o := Submit(cfg, p, s, op.frame, op.direct, op.now, op.spare);
            var all := s.queue + (if o.result == Ok then [op.frame] else []);
            o.next.queue != all ==>
              o.next.queue == [] && all == Loaded(cfg, p, s, op).queue && UnderPressure(cfg, p, Loaded(cfg, p, s, op), op.now)
  {
    var o := Submit(cfg, p, s, op.frame, op.direct, op.now, op.spare);
    var s0 := Loaded(cfg, p, s, op);
    if s.action != Cancel {
      if s0.queue != [] {
        DropsUnderPressure(cfg, p, s0, op.now, op.spare);
      }
      EscalateKeepsOrClears(cfg, p, s0, op.now, op.spare);
    }
    hide Escalate, UnderPressure, TotalBytes;
  }

  lemma TickDrops(cfg: Config, p: Profile, s: State, op: Op)
    requires cfg.enabled && Shape(p, s) && op.TickOp?
    ensures var o := Tick(cfg, p, s, op.pollMs, op.sendOks, op.now, op.spare);
            |o.wire| <= |s.queue|
            && (o.next.queue != s.queue[|o.wire|..] ==>
                  o.next.queue == [] && s.queue[|o.wire|..] == Loaded(cfg, p, s, op).queue && UnderPressure(cfg, p, Loaded(cfg, p, s, op), op.now))
  {
    TickSplits(cfg, p, s, op.pollMs, op.sendOks, op.now, op.spare);
    var s0 := Loaded(cfg, p, s, op);
    if s.action != Cancel {
      if s0.queue != [] {
        DropsUnderPressure(cfg, p, s0, op.now, op.spare);
      }
      EscalateKeepsOrClears(cfg, p, s0, op.now, op.spare);
    }
    assert s.queue[0..] == s.queue;
    hide Escalate, UnderPressure, TotalBytes;
  }

  /** Whatever one operation adds to the fates as dropped, it found under pressure. */
  lemma StepDrops(cfg: Config, p: Profile, t: Trace, op: Op)
    requires !Bypasses(cfg, p) && Shape(p, t.state)
    ensures var t1 := Apply(cfg, p, t, op);
            && t.fates <= t1.fates
            && forall i | |t.fates| <= i < |t1.fates| && t1.fates[i].Dropped? :: DroppedAt(cfg, p, t.state, op, t1.fates[i].frame)
  {
    var s := t.state;
    if op.SubmitOp? {
      SubmitDrops(cfg, p, s, op);
    } else if op.TickOp? {
      TickDrops(cfg, p, s, op);
    }
    hide Submit, Tick, Loaded, UnderPressure;
  }

  /**
   Every drop has its cause: each dropped frame of a run was in the backlog of
   some operation that found it at the break or cancel threshold.
   */
  lemma {:induction false} DropsExplained(cfg: Config, p: Profile, ops: seq<Op>, i: nat)
    requires Governed(cfg) && p.low && ClockRuns(ops)
    requires var fates := Exec(cfg, p, Start(INIT), ops).fates; i < |fates| && fates[i].Dropped?
    ensures exists n :: 0 <= n < |ops| &&
              DroppedAt(cfg, p, Exec(cfg, p, Start(INIT), ops[..n]).state, ops[n], Exec(cfg, p, Start(INIT), ops).fates[i].frame)
  {
    hide Apply, DroppedAt, Settled;
    if ops != [] {
      var m := |ops| - 1;
      var t := Exec(cfg, p, Start(INIT), ops[..m]);
      RunSettles(cfg, p, ops[..m]);
      SettledShape(cfg, p, t.state);
      StepDrops(cfg, p, t, ops[m]);
      if i < |t.fates| {
        DropsExplained(cfg, p, ops[..m], i);
        var n :| 0 <= n < m && DroppedAt(cfg, p, Exec(cfg, p, Start(INIT), ops[..m][..n]).state, ops[..m][n], t.fates[i].frame);
        assert ops[..m][..n] == ops[..n];
      }
    }
  }

  lemma SettledShape(cfg: Config, p: Profile, s: State)
    requires Settled(cfg, p, s)
    ensures Shape(p, s)
  {
  }

  // ---------- pacing ----------

  /** What the link may carry during the ticks of a run, in 1/8000 bytes. */
  function Allowance(p: Profile, ops: seq<Op>): nat {
    if ops == [] then 0
    else Allowance(p, ops[..|ops| - 1]) + (if ops[|ops| - 1].TickOp? then PollUnits(p, ops[|ops| - 1].pollMs) else 0)
  }

  lemma TickPaces(cfg: Config, p: Profile, s: State, pollMs: nat, sendOks: nat, now: int, spare: bool)
    ensures var o := Tick(cfg, p, s, pollMs, sendOks, now, spare);
            TotalBytes(o.wire) * UNITS_PER_BYTE + o.next.accum <= s.accum + PollUnits(p, pollMs)
  {
    EscalateKeepsOrClears(cfg, p, s, now, spare);
    if Drains(cfg, s) {
      var (s0, k) := Drained(p, s, pollMs, sendOks);
      EscalateKeepsOrClears(cfg, p, s0, now, spare);
    } else {
      assert s.queue[..0] == [];
    }
  }

  lemma NoBytes()
    ensures TotalBytes([]) == 0
  {
  }

  lemma SubmitPaces(cfg: Config, p: Profile, s: State, frame: Frame, direct: Result, now: int, spare: bool)
    requires !Bypasses(cfg, p)
    ensures var o := Submit(cfg, p, s, frame, direct, now, spare); o.wire == [] && o.next.accum <= s.accum
  {
    EscalateKeepsOrClears(cfg, p, s, now, spare);
    EscalateKeepsOrClears(cfg, p, Enqueue(s, frame, now), now, spare);
    hide Escalate;
  }

  /**
   Pacing: from any state, whatever submits, ticks, failures and clears
   follow, the bytes put on the wire plus the carry never exceed what the
   ticks allowed plus the carry there was.
   */
  lemma {:induction false} Pacing(cfg: Config, p: Profile, s: State, ops: seq<Op>)
    requires cfg.enabled && p.low
    ensures var t := Exec(cfg, p, Start(s), ops);
            TotalBytes(t.wire) * UNITS_PER_BYTE + t.state.accum <= s.accum + Allowance(p, ops)
  {
    hide Submit, Tick, PollUnits, TotalBytes, DroppedBy, SentFates;
    if ops == [] {
      NoBytes();
    } else {
      var t := Exec(cfg, p, Start(s), ops[..|ops| - 1]);
      var op := ops[|ops| - 1];
      Pacing(cfg, p, s, ops[..|ops| - 1]);
      match op
      case SubmitOp(frame, direct, now, spare) =>
        SubmitPaces(cfg, p, t.state, frame, direct, now, spare);
        assert t.wire + [] == t.wire;
      case TickOp(pollMs, sendOks, now, spare) =>
        TickPaces(cfg, p, t.state, pollMs, sendOks, now, spare);
        TotalBytesAppend(t.wire, Tick(cfg, p, t.state, pollMs, sendOks, now, spare).wire);
      case SpareOp =>
    }
  }
}
