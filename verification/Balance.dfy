/**
 The load balancer of one circuit link, on values: a FIFO of frames, the
 flow-control action last decided, the fractional drain allowance and the
 enqueue time of the oldest backlog.  BalanceRing.dfy implements it in place.

 The drain allowance is kept in units of 1/8000 byte, so that `baud * pollMs`
 units are exactly the bytes that the link carries in one poll interval.
 Each operation reads the clock once (`now`).  `spare` tells whether the flow
 callback, when it is told of a Cancel, calls SparedCancel on this balancer.
 */
module Balance {
  import opened Bytes

  const QUEUE_MAX: nat := 64
  const MAX_FRAME: nat := 4108
  const DEFAULT_BAUD: nat := 115200
  const UNITS_PER_BYTE: nat := 8000
  const UINT_MODULUS: nat := 0x1_0000_0000

  type Frame = seq<byte>

  datatype Action = None | Pause | Break | Cancel | Resume

  datatype Config = Config(enabled: bool, lagSec: nat, queuePause: nat, queueBreak: nat, queueCancel: nat)

  datatype Profile = Profile(low: bool, baud: nat)

  datatype State = State(queue: seq<Frame>, action: Action, lastSent: Action, accum: nat, oldest: int)

  datatype FlowCall = FlowCall(action: Action, reason: string)

  datatype Result = Ok | Invalid | Busy | NoMem | Io

  datatype TickResult = TickOk | CancelLink

  /** A frame leaves the queue in exactly one of two ways. */
  datatype Fate = Sent(frame: Frame) | Dropped(frame: Frame)

  const INIT := State([], None, None, 0, 0)

  function TotalBytes(q: seq<Frame>): nat {
    if q == [] then 0 else |q[0]| + TotalBytes(q[1..])
  }

  function Baud(p: Profile): (b: nat)
    ensures b > 0
  {
    if p.baud == 0 then DEFAULT_BAUD else p.baud
  }

  /** Seconds the backlog needs on the air, or its age if that is larger; both are cut to 32 bits. */
  function EstimatedLag(p: Profile, s: State, now: int): nat {
    var bytes := TotalBytes(s.queue);
    if bytes == 0 then 0 else
    var lag := (bytes * 8 / Baud(p)) % UINT_MODULUS;
    if s.oldest > 0 && now > s.oldest then
      var wall := (now - s.oldest) % UINT_MODULUS;
      if wall > lag then wall else lag
    else lag
  }

  function SparedCancel(s: State): State {
    if s.action == Cancel then s.(action := Pause, lastSent := None) else s
  }

  /** Tell the edge, unless it was told the same last time; the callback may spare a Cancel. */
  function SendFlow(s: State, action: Action, reason: string, spare: bool): (State, seq<FlowCall>) {
    if action == s.lastSent then (s, []) else
    var s1 := if spare then SparedCancel(s) else s;
    (s1.(lastSent := action), [FlowCall(action, reason)])
  }

  function ClearQueue(s: State): State {
    s.(queue := [], oldest := 0, accum := 0)
  }

  function HalfLag(cfg: Config): nat {
    cfg.lagSec / 2
  }

  predicate Overloaded(cfg: Config, p: Profile, s: State, lag: nat) {
    p.low && (TotalBytes(s.queue) >= cfg.queueCancel || lag >= (cfg.lagSec * 2) % UINT_MODULUS)
  }

  function Escalate(cfg: Config, p: Profile, s: State, now: int, spare: bool): (State, seq<FlowCall>) {
    var lag := EstimatedLag(p, s, now);
    var bytes := TotalBytes(s.queue);
    if !cfg.enabled then
      (s, [])
    else if Overloaded(cfg, p, s, lag) then
      if s.action == Cancel then (s, [])
      else SendFlow(ClearQueue(s).(action := Cancel), Cancel, "queue_overload", spare)
    else if bytes >= cfg.queueBreak || lag >= cfg.lagSec then
      if s.action == Break || s.action == Cancel then (s, [])
      else
        var (s1, f1) := SendFlow(ClearQueue(s).(action := Break), Break, "queue_lag", spare);
        var (s2, f2) := SendFlow(s1.(action := Pause), Pause, "stabilize", spare);
        (s2, f1 + f2)
    else if bytes >= cfg.queuePause || lag >= HalfLag(cfg) then
      if s.action == None then SendFlow(s.(action := Pause), Pause, "queue_pressure", spare) else (s, [])
    else if s.action == Pause && bytes < cfg.queuePause / 2 && lag < HalfLag(cfg) then
      SendFlow(s.(action := None), Resume, "stabilized", spare)
    else
      (s, [])
  }

  /** What one operation did: the next state, the frames put on the wire, the flow calls made. */
  datatype SubmitOutcome = SubmitOutcome(next: State, result: Result, wire: seq<Frame>, flow: seq<FlowCall>)

  datatype TickOutcome = TickOutcome(next: State, result: TickResult, wire: seq<Frame>, flow: seq<FlowCall>)

  predicate Bypasses(cfg: Config, p: Profile) {
    !cfg.enabled || !p.low
  }

  /** `direct` is what the transport answers when the frame bypasses the queue. */
  function Submit(cfg: Config, p: Profile, s: State, frame: Frame, direct: Result, now: int, spare: bool): SubmitOutcome {
    if |frame| == 0 then
      SubmitOutcome(s, Invalid, [], [])
    else if Bypasses(cfg, p) then
      SubmitOutcome(s, direct, if direct == Ok then [frame] else [], [])
    else if s.action == Cancel then
      SubmitOutcome(s, Busy, [], [])
    else if |s.queue| >= QUEUE_MAX then
      var (s1, flow) := Escalate(cfg, p, s, now, spare);
      SubmitOutcome(s1, if s1.action == Cancel then Busy else NoMem, [], flow)
    else if |frame| > MAX_FRAME then
      SubmitOutcome(s, Invalid, [], [])
    else
      var (s1, flow) := Escalate(cfg, p, Enqueue(s, frame, now), now, spare);
      SubmitOutcome(s1, Ok, [], flow)
  }

  function Enqueue(s: State, frame: Frame, now: int): State {
    s.(queue := s.queue + [frame], oldest := if s.oldest == 0 then now else s.oldest)
  }

  /**
   The number of frames one drain sends: the longest prefix that fits the
   budget, unless the transport fails before it (`sendOks` sends succeed).
   */
  function DrainCount(q: seq<Frame>, budget: nat, sendOks: nat): (k: nat)
    ensures k <= |q| && k <= sendOks
    ensures TotalBytes(q[..k]) <= budget
    ensures k < |q| && k < sendOks ==> TotalBytes(q[..k + 1]) > budget
    decreases |q|
  {
    if q == [] || sendOks == 0 || |q[0]| > budget then
      assert q != [] ==> q[..1] == [q[0]];
      0
    else
      var k := DrainCount(q[1..], budget - |q[0]|, sendOks - 1);
      assert q[..k + 1] == [q[0]] + q[1..][..k];
      assert k + 1 < |q| ==> q[..k + 2] == [q[0]] + q[1..][..k + 1];
      k + 1
  }

  function PollUnits(p: Profile, pollMs: nat): nat {
    Baud(p) * (if pollMs == 0 then 1 else pollMs)
  }

  function Drained(p: Profile, s: State, pollMs: nat, sendOks: nat): (State, nat) {
    var units := s.accum + PollUnits(p, pollMs);
    var k := DrainCount(s.queue, units / UNITS_PER_BYTE, sendOks);
    var rest := s.queue[k..];
    (s.(queue := rest, accum := units % UNITS_PER_BYTE, oldest := if rest == [] then 0 else s.oldest), k)
  }

  /** Only an idle (None) balancer with a backlog drains. */
  predicate Drains(cfg: Config, s: State) {
    s.action != Cancel && s.action != Pause && cfg.enabled && s.queue != []
  }

  function Tick(cfg: Config, p: Profile, s: State, pollMs: nat, sendOks: nat, now: int, spare: bool): TickOutcome {
    if s.action == Cancel then
      TickOutcome(s, CancelLink, [], [])
    else if !cfg.enabled || s.queue == [] then
      var (s1, flow) := Escalate(cfg, p, s, now, spare);
      TickOutcome(s1, TickOk, [], flow)
    else
      var (s0, k) := if s.action == Pause then (s, 0) else Drained(p, s, pollMs, sendOks);
      var (s1, flow) := Escalate(cfg, p, s0, now, spare);
      TickOutcome(s1, if s1.action == Cancel then CancelLink else TickOk, s.queue[..k], flow)
  }
}
