/**
 The AX.25 beacon: one sequential cycle at a time over a snapshot of the
 links, each link only when its channel has been idle and its last beacon is
 old enough.  Each call reads the clock once; 0 means "never" for a recorded
 time, so the clock is positive.
 */
module Beacon {
  import opened HubSlots
  import opened BroadcastLinks

  const LINK_MIN_SEC: nat := 900
  const BAND_IDLE_SEC: nat := 180
  const LINK_GAP_SEC: nat := 180
  const DEFER_RETRY_SEC: nat := 30
  const MESSAGE_MAX: nat := 48
  const UINT_MODULUS: nat := 0x1_0000_0000

  datatype Result = Ok | Invalid | Unsupported | Busy | Denied | Io

  /** What a call finds outside: the hub, the configuration, the expanded message, the transport's answer. */
  datatype Env = Env(
    running: bool, cfgPresent: bool, enabled: bool, ax25Enabled: bool, auto: bool,
    interval: nat, message: string, pathOk: bool, wire: Result)

  datatype State = State(
    active: bool, links: seq<Link>, next: nat, resumeAt: int, message: string,
    lastSent: seq<int>, lastAny: int, autoTick: nat)

  /** A transmission: when, on which slot, for which snapshot index, and the slot's radio activity noted before it. */
  datatype Tx = Tx(time: int, slot: nat, index: nat, rfBefore: int)

  datatype Outcome = Outcome(state: State, slots: Slots, tx: seq<Tx>, started: bool)

  const INIT := State(false, [], 0, 0, "", seq(MAX_LINKS, i => 0), 0, 0)

  predicate BandIdle(slots: Slots, i: nat, now: int) {
    && i < MAX_LINKS && i < |slots|
    && slots[i].state == Active && slots[i].fd >= 0
    && (slots[i].lastRf == 0 ||
        (now - slots[i].lastRf >= 0 && (now - slots[i].lastRf) % UINT_MODULUS >= BAND_IDLE_SEC))
  }

  /** The time from which the band may be idle, or -1. */
  function BandReadyAt(slots: Slots, i: nat, now: int): int {
    if i >= MAX_LINKS || i >= |slots| || slots[i].state != Active || slots[i].fd < 0 then -1
    else if slots[i].lastRf == 0 then now
    else if (now - slots[i].lastRf) % UINT_MODULUS >= BAND_IDLE_SEC then now
    else slots[i].lastRf + BAND_IDLE_SEC
  }

  predicate RateOk(last: int, interval: nat, now: int) {
    last == 0 || now - last < 0 || (now - last) % UINT_MODULUS >= interval
  }

  function DeferUntil(b: State, resumeAt: int, now: int): State {
    b.(resumeAt := if resumeAt == -1 || resumeAt <= now then now + DEFER_RETRY_SEC else resumeAt)
  }

  function MarkLinkSent(b: State, slot: nat, now: int): State {
    if slot < |b.lastSent| then b.(lastSent := b.lastSent[slot := now], lastAny := now) else b
  }

  /** Whether some live link can carry a beacon at all. */
  predicate AnyQos(slots: Slots) {
    exists i | 0 <= i < |slots| :: slots[i].state == Active && slots[i].qos
  }

  /** Send the beacon to one slot: a refusal changes nothing; success notes the activity and marks the slot. */
  function SendSlot(b: State, slots: Slots, env: Env, slot: nat, now: int): (State, Slots, Result) {
    if b.message == "" || slot >= MAX_LINKS then (b, slots, Invalid)
    else if !env.cfgPresent || !env.enabled || !env.ax25Enabled then (b, slots, Unsupported)
    else if !env.running then (b, slots, Busy)
    else if slot >= |slots| || !Qualifies(slots[slot]) || slots[slot].linkId == "" then (b, slots, Denied)
    else if !BandIdle(slots, slot, now) then (b, slots, Busy)
    else if |b.message| > MESSAGE_MAX then (b, slots, Invalid)
    else if !AnyQos(slots) then (b, slots, Busy)
    else if !env.pathOk then (b, slots, Invalid)
    else if env.wire != Ok then (b, slots, env.wire)
    else (MarkLinkSent(b, slot, now), NoteRf(slots, slots[slot].linkId, now, 0), Ok)
  }

  /** The cycle has dealt with its current link. */
  function NextLink(b: State, now: int): State {
    if b.next + 1 < |b.links| then b.(next := b.next + 1, resumeAt := now + LINK_GAP_SEC)
    else b.(next := b.next + 1, active := false, resumeAt := 0)
  }

  function SeqAdvance(b: State, slots: Slots, env: Env, now: int): Outcome {
    if !b.active then
      Outcome(b, slots, [], false)
    else if !env.running then
      Outcome(b.(active := false), slots, [], false)
    else if b.resumeAt != 0 && now < b.resumeAt then
      Outcome(b, slots, [], false)
    else if b.next >= |b.links| || !env.cfgPresent then
      Outcome(b.(active := false), slots, [], false)
    else
      var slot := b.links[b.next].slotIndex;
      if b.links[b.next].mhz <= 0.0 then
        Outcome(NextLink(b, now), slots, [], false)
      else if !BandIdle(slots, slot, now) then
        Outcome(DeferUntil(b, BandReadyAt(slots, slot, now), now), slots, [], false)
      else if slot >= |b.lastSent| || !RateOk(b.lastSent[slot], LINK_MIN_SEC, now) then
        Outcome(DeferUntil(b, now + DEFER_RETRY_SEC, now), slots, [], false)
      else
        var (b1, slots1, rc) := SendSlot(b, slots, env, slot, now);
        match rc
        case Ok => Outcome(NextLink(b1, now), slots1, [Tx(now, slot, b.next, slots[slot].lastRf)], false)
        case Busy => Outcome(DeferUntil(b1, BandReadyAt(slots1, slot, now), now), slots1, [], false)
        case Denied => Outcome(DeferUntil(b1, now + DEFER_RETRY_SEC, now), slots1, [], false)
        case _ => Outcome(NextLink(b1, now), slots1, [], false)
  }

  function SeqStart(b: State, links: seq<Link>, message: string): State {
    b.(active := true, links := links, next := 0, resumeAt := 0, message := message)
  }

  function SeqCancel(b: State): State {
    b.(active := false, resumeAt := 0)
  }

  /** The once-a-second tick of the service loop. */
  function Tick(b: State, slots: Slots, env: Env, now: int): Outcome {
    if b.active then
      SeqAdvance(b, slots, env, now)
    else if !env.cfgPresent || !env.enabled || !env.ax25Enabled || !env.auto || !env.running || env.interval == 0 then
      Outcome(b, slots, [], false)
    else
      var links := Snapshot(slots);
      if links == [] then Outcome(b, slots, [], false) else
      var b1 := b.(autoTick := b.autoTick + 1);
      if env.message == "" || b1.autoTick < env.interval || !RateOk(b.lastAny, env.interval, now) then
        Outcome(b1, slots, [], false)
      else
        SeqAdvance(SeqStart(b1, links, env.message).(autoTick := 0), slots, env, now).(started := true)
  }

  /** The operator's beacon: a cycle started at once. */
  function Manual(b: State, slots: Slots, env: Env, now: int): (Outcome, Result) {
    if b.active then (Outcome(b, slots, [], false), Busy)
    else if !env.cfgPresent || !env.enabled || !env.ax25Enabled then (Outcome(b, slots, [], false), Unsupported)
    else if !env.running then (Outcome(b, slots, [], false), Busy)
    else
      var links := Snapshot(slots);
      if links == [] then (Outcome(b, slots, [], false), Denied)
      else if env.message == "" then (Outcome(b, slots, [], false), Invalid)
      else (SeqAdvance(SeqStart(b, links, env.message), slots, env, now).(started := true), Ok)
  }
}
