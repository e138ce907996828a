/** What the load balancer answers and tells: to its caller, to the transport, to the edge. */
module BalanceAnswers {
  import opened Balance
  import opened BalanceRuns

  // ---------- a link that is not balanced ----------

  /** On a disabled balancer or a high-bandwidth link a frame is on the wire exactly when the transport took it, and nothing else changes. */
  lemma BypassDelivers(cfg: Config, p: Profile, s: State, frame: Frame, direct: Result, now: int, spare: bool)
    requires frame != [] && (!cfg.enabled || !p.low)
    ensures var o := Submit(cfg, p, s, frame, direct, now, spare);
            && o.result == direct && o.next == s && o.flow == []
            && o.wire == (if direct == Ok then [frame] else [])
  {
  }

  /** Over every run of such a link the wire carries exactly the accepted frames, in order, and nothing is ever queued. */
  lemma {:induction false} BypassRun(cfg: Config, p: Profile, ops: seq<Op>)
    requires !cfg.enabled || !p.low
    ensures var t := Exec(cfg, p, Start(INIT), ops); t.wire == t.accepted && t.state.queue == []
  {
    if ops != [] {
      BypassRun(cfg, p, ops[..|ops| - 1]);
      var t := Exec(cfg, p, Start(INIT), ops[..|ops| - 1]);
      BypassStep(cfg, p, t, ops[|ops| - 1]);
    }
  }

  lemma BypassStep(cfg: Config, p: Profile, t: Trace, op: Op)
    requires (!cfg.enabled || !p.low) && t.wire == t.accepted && t.state.queue == []
    ensures var t1 := Apply(cfg, p, t, op); t1.wire == t1.accepted && t1.state.queue == []
  {
    if op.TickOp? {
      EscalateKeepsOrClears(cfg, p, t.state, op.now, op.spare);
      assert t.wire + [] == t.wire;
    }
    hide Escalate;
  }

  // ---------- what a submit answers on a balanced link ----------

  /**
   A frame is accepted if and only if it is not empty, fits a queue slot, there
   is a free slot and the link is not cancelled; the other answers are exact
   too, and a refusal takes nothing into the queue.
   */
  lemma SubmitAnswers(cfg: Config, p: Profile, s: State, frame: Frame, direct: Result, now: int, spare: bool)
    requires cfg.enabled && p.low && |s.queue| <= 64
    ensures var o := Submit(cfg, p, s, frame, direct, now, spare);
            && (o.result == Ok <==> 0 < |frame| <= 4108 && |s.queue| < 64 && s.action != Cancel)
            && (o.result == Invalid <==> frame == [] || (|frame| > 4108 && |s.queue| < 64 && s.action != Cancel))
            && (o.result == Busy <==> frame != [] && (s.action == Cancel || (|s.queue| == 64 && o.next.action == Cancel)))
            && (o.result == NoMem <==> frame != [] && |s.queue| == 64 && s.action != Cancel && o.next.action != Cancel)
            && (|s.queue| < 64 && o.result != Ok ==> o.next == s && o.flow == [])
  {
    hide Escalate;
  }

  /** A tick asks for the link to be given up exactly when it leaves it cancelled (unless twice lag_sec wraps to 0). */
  lemma TickVerdict(cfg: Config, p: Profile, s: State, pollMs: nat, sendOks: nat, now: int, spare: bool)
    requires Governed(cfg) && Settled(cfg, p, s) && cfg.lagSec * 2 % UINT_MODULUS > 0
    ensures var o := Tick(cfg, p, s, pollMs, sendOks, now, spare); o.result == CancelLink <==> o.next.action == Cancel
  {
    if s.queue == [] {
      EmptyLag(p, s, now);
    }
  }

  // ---------- the decision ----------

  /**
   When a link is paused, resumed or cancelled: pausing takes pressure at half
   the lag or at queue_pause, resuming takes a backlog below half of queue_pause
   and below half the lag, and cancelling a low-bandwidth link at twice the lag or at queue_cancel.
   */
  lemma Transitions(cfg: Config, p: Profile, s: State, now: int, spare: bool)
    requires Governed(cfg) && Shape(p, s) && cfg.lagSec * 2 < UINT_MODULUS
    ensures var bytes, lag := TotalBytes(s.queue), EstimatedLag(p, s, now);
            var doomed := p.low && (bytes >= cfg.queueCancel || lag >= 2 * cfg.lagSec);
            var broken := bytes >= cfg.queueBreak || lag >= cfg.lagSec;
            var s1 := Escalate(cfg, p, s, now, spare).0;
            && (s1.action == Cancel <==> s.action == Cancel || (doomed && (!spare || s.lastSent == Cancel)))
            && (s.action == None ==>
                  (s1.action == None <==> !doomed && !broken && bytes < cfg.queuePause && lag < cfg.lagSec / 2))
            && (s.action == Pause ==>
                  (s1.action == None <==> !doomed && !broken && bytes < cfg.queuePause / 2 && lag < cfg.lagSec / 2))
            && (s.action == None || s.action == Pause ==> s1.action == None || s1.action == Pause || s1.action == Cancel)
  {
    if s.queue == [] {
      EmptyLag(p, s, now);
    }
  }

  /** A spare turns the cancel into a pause, and makes the balancer tell its next decision whatever it told before. */
  lemma SpareReopens(s: State)
    ensures s.action == Cancel ==> SparedCancel(s) == s.(action := Pause, lastSent := None)
    ensures s.action != Cancel ==> SparedCancel(s) == s
  {
  }

  // ---------- what the edge has been told ----------

  function TellsOf(cfg: Config, p: Profile, s: State, op: Op): seq<FlowCall> {
    match op
    case SubmitOp(frame, direct, now, spare) => Submit(cfg, p, s, frame, direct, now, spare).flow
    case TickOp(pollMs, sendOks, now, spare) => Tick(cfg, p, s, pollMs, sendOks, now, spare).flow
    case SpareOp => []
  }

  /** All that a run tells the edge. */
  function Told(cfg: Config, p: Profile, ops: seq<Op>): seq<FlowCall> {
    if ops == [] then []
    else
      var n := |ops| - 1;
      Told(cfg, p, ops[..n]) + TellsOf(cfg, p, Exec(cfg, p, Start(INIT), ops[..n]).state, ops[n])
  }

  predicate Unspared(op: Op) {
    !op.SpareOp? && !op.spare
  }

  /** The last thing told is the present decision. */
  predicate Knows(told: seq<FlowCall>, s: State) {
    match s.action
    case None => (told == [] && s.lastSent == None) || (told != [] && told[|told| - 1].action == Resume == s.lastSent)
    case Pause => told != [] && told[|told| - 1].action == Pause == s.lastSent
    case Cancel => told != [] && told[|told| - 1].action == Cancel == s.lastSent
    case _ => false
  }

  lemma EscalateTells(cfg: Config, p: Profile, s: State, now: int, told: seq<FlowCall>)
    requires Governed(cfg) && Shape(p, s) && Knows(told, s)
    ensures var (s1, flow) := Escalate(cfg, p, s, now, false); Knows(told + flow, s1)
  {
    if s.queue == [] {
      EmptyLag(p, s, now);
    }
    hide EstimatedLag, Overloaded, TotalBytes, HalfLag, Shape;
    assert told + [] == told;
  }

  lemma StepTells(cfg: Config, p: Profile, s: State, op: Op, told: seq<FlowCall>)
    requires Governed(cfg) && Settled(cfg, p, s) && Knows(told, s) && Unspared(op) && op.now > 0
    ensures Knows(told + TellsOf(cfg, p, s, op), Apply(cfg, p, Start(s), op).state)
  {
    assert told + [] == told;
    match op
    case SubmitOp(frame, direct, now, _) =>
      if frame != [] && p.low && s.action != Cancel {
        if |s.queue| >= QUEUE_MAX {
          EscalateTells(cfg, p, s, now, told);
        } else if |frame| <= MAX_FRAME {
          EnqueueShape(p, s, frame, now);
          EscalateTells(cfg, p, Enqueue(s, frame, now), now, told);
        }
      }
    case TickOp(pollMs, sendOks, now, _) =>
      if Drains(cfg, s) {
        DrainedShape(p, s, pollMs, sendOks);
        EscalateTells(cfg, p, Drained(p, s, pollMs, sendOks).0, now, told);
      } else if s.action != Cancel {
        EscalateTells(cfg, p, s, now, told);
      }
    hide Escalate;
  }

  /**
   Without spares the edge always knows: in every reachable state the last call
   it got is the present decision (none at all, or Resume, on an idle link).
   */
  lemma {:induction false} EdgeKnows(cfg: Config, p: Profile, ops: seq<Op>)
    requires Governed(cfg) && ClockRuns(ops) && forall i | 0 <= i < |ops| :: Unspared(ops[i])
    ensures Knows(Told(cfg, p, ops), Exec(cfg, p, Start(INIT), ops).state)
  {
    if ops != [] {
      var n := |ops| - 1;
      EdgeKnows(cfg, p, ops[..n]);
      RunSettles(cfg, p, ops[..n]);
      var t := Exec(cfg, p, Start(INIT), ops[..n]);
      StepTells(cfg, p, t.state, ops[n], Told(cfg, p, ops[..n]));
      SameState(cfg, p, t, ops[n]);
      hide Knows, TellsOf, Apply, Settled;
    }
  }

  lemma SameState(cfg: Config, p: Profile, t: Trace, op: Op)
    ensures Apply(cfg, p, t, op).state == Apply(cfg, p, Start(t.state), op).state
  {
    hide Submit, Tick;
  }

  /**
   And what each decision is told as: an overload as one cancel, a broken link as
   a break and then a pause, pressure on an idle link as a pause, its end on a
   paused one as a resume, anything else not at all.
   */
  lemma Tells(cfg: Config, p: Profile, s: State, now: int, spare: bool)
    requires Governed(cfg) && Shape(p, s) && (s.action == None || s.action == Pause) && cfg.lagSec * 2 < UINT_MODULUS
    ensures var bytes, lag := TotalBytes(s.queue), EstimatedLag(p, s, now);
            var doomed := p.low && (bytes >= cfg.queueCancel || lag >= 2 * cfg.lagSec);
            var broken := bytes >= cfg.queueBreak || lag >= cfg.lagSec;
            var flow := Escalate(cfg, p, s, now, spare).1;
            && (doomed ==> flow == if s.lastSent == Cancel then [] else [FlowCall(Cancel, "queue_overload")])
            && (!doomed && broken ==> flow == [FlowCall(Break, "queue_lag"), FlowCall(Pause, "stabilize")])
            && (!doomed && !broken && s.action == None ==>
                  flow == if bytes >= cfg.queuePause || lag >= cfg.lagSec / 2 then [FlowCall(Pause, "queue_pressure")] else [])
            && (!doomed && !broken && s.action == Pause ==>
                  flow == if bytes < cfg.queuePause / 2 && lag < cfg.lagSec / 2 then [FlowCall(Resume, "stabilized")] else [])
  {
    if s.queue == [] {
      EmptyLag(p, s, now);
    }
  }

  /** A profile without a baud counts as 115200. */
  lemma BaudExactly(p: Profile)
    ensures Baud(p) == if p.baud > 0 then p.baud else 115200
  {
  }

  /** A cancelled balancer decides nothing, whatever its backlog. */
  lemma CancelledDecidesNothing(cfg: Config, p: Profile, s: State, now: int, spare: bool)
    requires s.action == Cancel
    ensures Escalate(cfg, p, s, now, spare) == (s, [])
  {
  }

  /** A poll interval of 0 counts as one millisecond; one of m milliseconds allows m times the baud, in 1/8000 bytes. */
  lemma PollUnitsExactly(p: Profile, pollMs: nat)
    ensures PollUnits(p, pollMs) == if pollMs == 0 then Baud(p) else Baud(p) * pollMs
  {
  }

  /** Where 32 bits wrap: twice a lag_sec of 2^31 is 0, so that any low-bandwidth link is cancelled at once, and an age of 2^32 seconds counts as none. */
  lemma Wraps(cfg: Config, p: Profile, s: State, now: int)
    requires cfg.enabled && p.low && s.action == None && s.lastSent != Cancel
    ensures cfg.lagSec == 0x8000_0000 ==> Escalate(cfg, p, s, now, false).0.action == Cancel
    ensures s.queue != [] && s.oldest > 0 && now == s.oldest + 0x1_0000_0000 && TotalBytes(s.queue) * 8 < Baud(p) ==> EstimatedLag(p, s, now) == 0
  {
    if TotalBytes(s.queue) * 8 < Baud(p) {
      Below(TotalBytes(s.queue) * 8, Baud(p));
    }
    hide TotalBytes, Baud;
  }

  lemma Below(a: nat, b: nat)
    requires a < b
    ensures a / b == 0
  {
  }
}
