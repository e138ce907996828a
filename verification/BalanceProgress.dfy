/**
 Which frames a low-bandwidth link can send at all.  Whole bytes of the
 allowance that a tick does not use are forfeited, only the fraction is kept;
 so a frame can be sent if and only if it is no longer than one poll interval's
 allowance, rounded up to whole bytes.
 */
module BalanceProgress {
  import opened Balance
  import opened BalanceRuns

  /** One poll interval's allowance, rounded up to whole bytes. */
  function MostBytes(units: nat): nat {
    (units + UNITS_PER_BYTE - 1) / UNITS_PER_BYTE
  }

  lemma TooLong(n: nat, units: nat)
    ensures n > MostBytes(units) <==> n * UNITS_PER_BYTE >= UNITS_PER_BYTE + units
  {
  }

  /** The head of the queue moves in a tick exactly when one poll interval's allowance covers it. */
  lemma HeadMoves(cfg: Config, p: Profile, s: State, pollMs: nat, sendOks: nat, now: int, spare: bool)
    requires Drains(cfg, s)
    ensures Tick(cfg, p, s, pollMs, sendOks, now, spare).wire != [] <==>
            sendOks > 0 && |s.queue[0]| * UNITS_PER_BYTE <= s.accum + PollUnits(p, pollMs)
  {
    var units := s.accum + PollUnits(p, pollMs);
    var k := DrainCount(s.queue, units / UNITS_PER_BYTE, sendOks);
    assert |s.queue[..k]| == k;
  }

  // ---------- what is too long is never sent ----------

  /** So a frame at the head that is longer than any interval's allowance stays there or is dropped. */
  lemma {:induction false} LongFrameStarves(cfg: Config, p: Profile, s: State, ops: seq<Op>)
    requires Governed(cfg) && p.low && Settled(cfg, p, s) && ClockRuns(ops) && s.queue != []
    requires forall i | 0 <= i < |ops| :: ops[i].TickOp? && |s.queue[0]| * UNITS_PER_BYTE >= UNITS_PER_BYTE + PollUnits(p, ops[i].pollMs)
    ensures var t := Exec(cfg, p, Start(s), ops);
            && t.wire == [] && Settled(cfg, p, t.state)
            && (t.state.queue == s.queue || t.state.queue == [])
  {
    if ops != [] {
      var t := Exec(cfg, p, Start(s), ops[..|ops| - 1]);
      var op := ops[|ops| - 1];
      LongFrameStarves(cfg, p, s, ops[..|ops| - 1]);
      ApplySettles(cfg, p, t, op);
      var o := Tick(cfg, p, t.state, op.pollMs, op.sendOks, op.now, op.spare);
      EscalateKeepsOrClears(cfg, p, t.state, op.now, op.spare);
      if Drains(cfg, t.state) {
        HeadMoves(cfg, p, t.state, op.pollMs, op.sendOks, op.now, op.spare);
        assert t.state.queue[0..] == t.state.queue;
        EscalateKeepsOrClears(cfg, p, Drained(p, t.state, op.pollMs, op.sendOks).0, op.now, op.spare);
      } else {
        assert o.wire == [];
      }
    }
  }

  /** No frame of the run fits into the allowance of any of its ticks. */
  predicate AllTooLong(p: Profile, ops: seq<Op>, units: nat) {
    && (forall i | 0 <= i < |ops| && ops[i].SubmitOp? :: ops[i].frame == [] || |ops[i].frame| > MostBytes(units))
    && (forall i | 0 <= i < |ops| && ops[i].TickOp? :: PollUnits(p, ops[i].pollMs) <= units)
  }

  predicate Stuck(s: State, units: nat) {
    s.accum < UNITS_PER_BYTE && forall i | 0 <= i < |s.queue| :: |s.queue[i]| > MostBytes(units)
  }

  lemma SubmitStuck(cfg: Config, p: Profile, s: State, op: Op, units: nat)
    requires cfg.enabled && p.low && Stuck(s, units) && op.SubmitOp? && (op.frame == [] || |op.frame| > MostBytes(units))
    ensures var o := Submit(cfg, p, s, op.frame, op.direct, op.now, op.spare); o.wire == [] && Stuck(o.next, units)
  {
    EscalateKeepsOrClears(cfg, p, s, op.now, op.spare);
    EscalateKeepsOrClears(cfg, p, Enqueue(s, op.frame, op.now), op.now, op.spare);
    hide Escalate, MostBytes;
  }

  lemma TickStuck(cfg: Config, p: Profile, s: State, op: Op, units: nat)
    requires cfg.enabled && p.low && Stuck(s, units) && op.TickOp? && PollUnits(p, op.pollMs) <= units
    ensures var o := Tick(cfg, p, s, op.pollMs, op.sendOks, op.now, op.spare); o.wire == [] && Stuck(o.next, units)
  {
    if Drains(cfg, s) {
      TooLong(|s.queue[0]|, units);
      HeadMoves(cfg, p, s, op.pollMs, op.sendOks, op.now, op.spare);
      EscalateKeepsOrClears(cfg, p, Drained(p, s, op.pollMs, op.sendOks).0, op.now, op.spare);
    } else {
      EscalateKeepsOrClears(cfg, p, s, op.now, op.spare);
      assert s.queue[..0] == [];
    }
    hide Escalate, MostBytes;
  }

  /** Over any run whose frames are all too long for any of its ticks, nothing is ever sent. */
  lemma {:induction false} TooLongNeverSent(cfg: Config, p: Profile, ops: seq<Op>, units: nat)
    requires cfg.enabled && p.low && AllTooLong(p, ops, units)
    ensures var t := Exec(cfg, p, Start(INIT), ops); t.wire == [] && Stuck(t.state, units)
  {
    hide Stuck, MostBytes, Submit, Tick, PollUnits;
    if ops == [] {
      InitStuck(units);
    } else {
      var n := |ops| - 1;
      assert forall i | 0 <= i < n :: ops[..n][i] == ops[i];
      TooLongNeverSent(cfg, p, ops[..n], units);
      var s := Exec(cfg, p, Start(INIT), ops[..n]).state;
      match ops[n]
      case SubmitOp(_, _, _, _) => SubmitStuck(cfg, p, s, ops[n], units);
      case TickOp(_, _, _, _) => TickStuck(cfg, p, s, ops[n], units);
      case SpareOp => SpareStuck(s, units);
    }
  }

  lemma InitStuck(units: nat)
    ensures Stuck(INIT, units)
  {
  }

  lemma SpareStuck(s: State, units: nat)
    requires Stuck(s, units)
    ensures Stuck(SparedCancel(s), units)
  {
  }

  const LINK_POLL_MS: nat := 50
  const HBX_HEADER: nat := 12

  /** What a low-bandwidth link is given that does not name its baud. */
  const UNNAMED_LOW := Profile(true, 1200)

  /**
   A real case: at 1200 baud and the hub's poll interval a tick allows 7.5
   bytes, less than the header of any frame on a circuit.  Nothing ever leaves
   the balancer's queue by being sent; what goes past the balancer still does.
   */
  lemma UnnamedLowLinkIsMute(cfg: Config, ops: seq<Op>)
    requires cfg.enabled
    requires forall i | 0 <= i < |ops| && ops[i].SubmitOp? :: |ops[i].frame| >= HBX_HEADER
    requires forall i | 0 <= i < |ops| && ops[i].TickOp? :: ops[i].pollMs == LINK_POLL_MS
    ensures Exec(cfg, UNNAMED_LOW, Start(INIT), ops).wire == []
  {
    var units := PollUnits(UNNAMED_LOW, LINK_POLL_MS);
    assert units == 60000 && MostBytes(units) == 8;
    TooLongNeverSent(cfg, UNNAMED_LOW, ops, units);
  }

  // ---------- what is not too long is sent ----------

  /** An idle tick that cannot send a head that is not too long lacks less than its fraction of a byte. */
  lemma NotYet(cfg: Config, p: Profile, s: State, op: Op)
    requires Drains(cfg, s) && op.TickOp? && op.sendOks > 0 && s.accum < UNITS_PER_BYTE
    requires |s.queue[0]| <= MostBytes(PollUnits(p, op.pollMs))
    requires Tick(cfg, p, s, op.pollMs, op.sendOks, op.now, op.spare).wire == []
    ensures var units := PollUnits(p, op.pollMs);
            var rest := units % UNITS_PER_BYTE;
            rest > 0 && (s.accum + units) % UNITS_PER_BYTE == s.accum + rest < UNITS_PER_BYTE
  {
    HeadMoves(cfg, p, s, op.pollMs, op.sendOks, op.now, op.spare);
    FractionGrows(|s.queue[0]|, s.accum, PollUnits(p, op.pollMs));
  }

  /** If the link stays idle, only the fraction has grown. */
  lemma CarryGrows(cfg: Config, p: Profile, s: State, op: Op)
    requires Drains(cfg, s) && op.TickOp?
    requires var o := Tick(cfg, p, s, op.pollMs, op.sendOks, op.now, op.spare); o.wire == [] && Drains(cfg, o.next)
    ensures var o := Tick(cfg, p, s, op.pollMs, op.sendOks, op.now, op.spare);
            o.next.queue == s.queue && o.next.accum == (s.accum + PollUnits(p, op.pollMs)) % UNITS_PER_BYTE
  {
    TickSplits(cfg, p, s, op.pollMs, op.sendOks, op.now, op.spare);
    EscalateKeepsOrClears(cfg, p, Drained(p, s, op.pollMs, op.sendOks).0, op.now, op.spare);
    assert s.queue[0..] == s.queue;
    hide Escalate, PollUnits;
  }

  lemma FractionGrows(n: nat, accum: nat, units: nat)
    requires accum < UNITS_PER_BYTE && n <= MostBytes(units) && n * UNITS_PER_BYTE > accum + units
    ensures units % UNITS_PER_BYTE > 0 && accum + units % UNITS_PER_BYTE < UNITS_PER_BYTE
    ensures (accum + units) % UNITS_PER_BYTE == accum + units % UNITS_PER_BYTE
  {
  }

  /** Ticks of one interval: until one of them sends something, the link stays idle with a backlog and the transport works. */
  predicate IdleTicks(cfg: Config, p: Profile, s: State, ticks: seq<Op>, pollMs: nat)
    decreases |ticks|
  {
    ticks != [] ==>
      && Drains(cfg, s) && ticks[0].TickOp? && ticks[0].pollMs == pollMs && ticks[0].sendOks > 0
      && var o := Tick(cfg, p, s, pollMs, ticks[0].sendOks, ticks[0].now, ticks[0].spare);
         o.wire == [] ==> IdleTicks(cfg, p, o.next, ticks[1..], pollMs)
  }

  /** The frames that a run of operations sends from a state. */
  function SentBy(cfg: Config, p: Profile, s: State, ops: seq<Op>): seq<Frame>
    decreases |ops|
  {
    if ops == [] then [] else
    var t := Apply(cfg, p, Start(s), ops[0]);
    t.wire + SentBy(cfg, p, t.state, ops[1..])
  }

  /** So many ticks' fractions make up what a head of that many bytes lacks. */
  predicate MadeUp(head: nat, accum: nat, units: nat, ticks: nat)
    requires ticks > 0
  {
    head * UNITS_PER_BYTE <= accum + units + (ticks - 1) * (units % UNITS_PER_BYTE)
  }

  lemma StillLacking(head: nat, accum: nat, units: nat, ticks: nat)
    requires ticks > 0 && MadeUp(head, accum, units, ticks) && head * UNITS_PER_BYTE > accum + units
    ensures ticks > 1 && MadeUp(head, accum + units % UNITS_PER_BYTE, units, ticks - 1)
  {
    var rest := units % UNITS_PER_BYTE;
    assert (ticks - 1) * rest == rest + (ticks - 2) * rest;
  }

  /**
   Conversely a frame at the head that is not too long is sent by idle ticks,
   as soon as the fractions that they leave make up what it lacks.
   */
  lemma {:induction false} HeadIsSent(cfg: Config, p: Profile, s: State, ticks: seq<Op>, pollMs: nat)
    requires s.accum < UNITS_PER_BYTE && s.queue != [] && |s.queue[0]| <= MostBytes(PollUnits(p, pollMs))
    requires IdleTicks(cfg, p, s, ticks, pollMs) && ticks != []
    requires MadeUp(|s.queue[0]|, s.accum, PollUnits(p, pollMs), |ticks|)
    ensures SentBy(cfg, p, s, ticks) != [] && SentBy(cfg, p, s, ticks)[0] == s.queue[0]
    decreases |ticks|
  {
    hide Tick, MostBytes, PollUnits, Drains, MadeUp;
    var op := ticks[0];
    TickSplits(cfg, p, s, op.pollMs, op.sendOks, op.now, op.spare);
    var o := Tick(cfg, p, s, op.pollMs, op.sendOks, op.now, op.spare);
    var t := Apply(cfg, p, Start(s), op);
    assert t.state == o.next && t.wire == o.wire;
    if o.wire == [] {
      HeadMoves(cfg, p, s, op.pollMs, op.sendOks, op.now, op.spare);
      NotYet(cfg, p, s, op);
      StillLacking(|s.queue[0]|, s.accum, PollUnits(p, pollMs), |ticks|);
      CarryGrows(cfg, p, s, op);
      HeadIsSent(cfg, p, o.next, ticks[1..], pollMs);
      assert [] + SentBy(cfg, p, o.next, ticks[1..]) == SentBy(cfg, p, o.next, ticks[1..]);
    }
  }

  /** So in any case after 8000 idle ticks, however small the fraction. */
  lemma HeadIsSentInTime(cfg: Config, p: Profile, s: State, ticks: seq<Op>, pollMs: nat)
    requires s.accum < UNITS_PER_BYTE && s.queue != [] && |s.queue[0]| <= MostBytes(PollUnits(p, pollMs))
    requires IdleTicks(cfg, p, s, ticks, pollMs) && |ticks| >= UNITS_PER_BYTE
    ensures SentBy(cfg, p, s, ticks) != [] && SentBy(cfg, p, s, ticks)[0] == s.queue[0]
  {
    Lacking(|s.queue[0]|, PollUnits(p, pollMs), |ticks| - 1);
    hide MostBytes, PollUnits, IdleTicks, SentBy;
    HeadIsSent(cfg, p, s, ticks, pollMs);
  }

  lemma Lacking(n: nat, units: nat, ticks: nat)
    requires n <= MostBytes(units) && ticks >= UNITS_PER_BYTE - 1
    ensures n * UNITS_PER_BYTE <= units + ticks * (units % UNITS_PER_BYTE)
  {
    var rest := units % UNITS_PER_BYTE;
    assert rest == 0 || n * UNITS_PER_BYTE <= units - rest + UNITS_PER_BYTE;
    if rest > 0 {
      AtLeast(ticks, rest);
    }
  }

  lemma AtLeast(a: nat, rest: nat)
    requires a > 0 && rest > 0
    ensures a * rest >= a + rest - 1
  {
    Product(a - 1, rest - 1);
  }

  lemma Product(x: nat, y: nat)
    ensures (x + 1) * (y + 1) == x * y + x + y + 1 && x * y >= 0
  {
  }
}
