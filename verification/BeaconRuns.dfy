/** The timing and order of beacons over every run with a clock that never goes back. */
module BeaconRuns {
  import opened HubSlots
  import opened BroadcastLinks
  import opened Beacon

  /** `HubEv`: whatever the hub did to its slots meanwhile. */
  datatype Event =
    | TickEv(now: int, env: Env)
    | ManualEv(now: int, env: Env)
    | CancelEv
    | HubEv(slots: Slots)

  /** A logged transmission belongs to a cycle, which works through a snapshot. */
  datatype Entry = Entry(cycle: nat, links: seq<Link>, tx: Tx)

  datatype System = System(slots: Slots, beacon: State, clock: int, cycle: nat, log: seq<Entry>)

  function Record(s: System, o: Outcome, now: int): System {
    var cycle := if o.started then s.cycle + 1 else s.cycle;
    System(o.slots, o.state, now, cycle,
           s.log + (if o.tx == [] then [] else [Entry(cycle, o.state.links, o.tx[0])]))
  }

  function Step(s: System, e: Event): System {
    match e
    case TickEv(now, env) => Record(s, Tick(s.beacon, s.slots, env, now), now)
    case ManualEv(now, env) => Record(s, Manual(s.beacon, s.slots, env, now).0, now)
    case CancelEv => s.(beacon := SeqCancel(s.beacon))
    case HubEv(slots) => s.(slots := slots)
  }

  function Run(s: System, events: seq<Event>): System {
    if events == [] then s else Step(Run(s, events[..|events| - 1]), events[|events| - 1])
  }

  function TimeOf(e: Event, clock: int): int {
    match e
    case TickEv(now, _) => now
    case ManualEv(now, _) => now
    case _ => clock
  }

  /** The clock as of the first n events. */
  function ClockAt(start: int, events: seq<Event>, n: nat): int
    requires n <= |events|
  {
    if n == 0 then start else TimeOf(events[n - 1], ClockAt(start, events, n - 1))
  }

  ghost predicate ClockRuns(start: int, events: seq<Event>) {
    && start > 0
    && forall n | 0 <= n < |events| :: ClockAt(start, events, n) <= TimeOf(events[n], ClockAt(start, events, n))
  }

  // ---------- what the log promises ----------

  ghost predicate Spaced(a: Entry, b: Entry) {
    && a.tx.time <= b.tx.time && a.cycle <= b.cycle
    && (a.tx.slot == b.tx.slot ==> b.tx.time - a.tx.time >= LINK_MIN_SEC)
    && (a.cycle == b.cycle ==> b.tx.time - a.tx.time >= LINK_GAP_SEC && a.tx.index < b.tx.index && a.links == b.links)
  }

  ghost predicate QuietBand(e: Entry) {
    e.tx.rfBefore == 0 || e.tx.time - e.tx.rfBefore >= BAND_IDLE_SEC
  }

  /** The entry was sent to the slot that its cycle's snapshot lists at its index. */
  ghost predicate FromSnapshot(e: Entry) {
    && DistinctSlots(e.links)
    && e.tx.index < |e.links| && e.tx.slot == e.links[e.tx.index].slotIndex
  }

  ghost predicate LogSound(log: seq<Entry>) {
    && (forall i, j | 0 <= i < j < |log| :: Spaced(log[i], log[j]))
    && (forall i | 0 <= i < |log| :: QuietBand(log[i]) && FromSnapshot(log[i]))
  }

  /** What ties the scheduler's marks to the log. */
  ghost predicate Marked(s: System, e: Entry) {
    && 0 < e.tx.time <= s.clock && e.cycle <= s.cycle
    && e.tx.slot < |s.beacon.lastSent| && e.tx.time <= s.beacon.lastSent[e.tx.slot]
    && (e.cycle == s.cycle && s.beacon.active ==>
          e.links == s.beacon.links && e.tx.index < s.beacon.next && s.beacon.resumeAt >= e.tx.time + LINK_GAP_SEC)
  }

  ghost predicate Sound(s: System) {
    && s.clock > 0 && |s.beacon.lastSent| == MAX_LINKS
    && (s.beacon.active ==> DistinctSlots(s.beacon.links))
    && (forall k | 0 <= k < MAX_LINKS :: 0 <= s.beacon.lastSent[k] <= s.clock)
    && LogSound(s.log)
    && forall i | 0 <= i < |s.log| :: Marked(s, s.log[i])
  }

  lemma SendSlotKeeps(b: State, slots: Slots, env: Env, slot: nat, now: int)
    ensures var (b1, slots1, rc) := SendSlot(b, slots, env, slot, now);
            && |b1.lastSent| == |b.lastSent| && b1 == b.(lastSent := b1.lastSent, lastAny := b1.lastAny)
            && (rc == Ok || b1 == b)
  {
    hide BandIdle, RateOk;
  }

  /** Without a transmission no mark changes, and the cycle only moves on or waits. */
  lemma AdvanceMoves(b: State, slots: Slots, env: Env, now: int)
    ensures var o := SeqAdvance(b, slots, env, now);
            && !o.started && o.state.links == b.links && |o.state.lastSent| == |b.lastSent|
            && (o.state.active ==> b.active && o.state.next >= b.next && (o.state.resumeAt == b.resumeAt || o.state.resumeAt > now))
            && (o.tx == [] ==> o.state.lastSent == b.lastSent)
  {
    hide BandIdle, BandReadyAt, RateOk, SendSlot;
    if b.next < |b.links| {
      SendSlotKeeps(b, slots, env, b.links[b.next].slotIndex, now);
    }
  }

  /** A transmission is marked, follows the snapshot, and happens only when due. */
  lemma AdvanceSends(b: State, slots: Slots, env: Env, now: int)
    requires now > 0 && SeqAdvance(b, slots, env, now).tx != []
    ensures var o := SeqAdvance(b, slots, env, now);
            var t := o.tx[0];
            && o.tx == [t] && b.active && b.next < |b.links| && t.index == b.next && t.slot == b.links[b.next].slotIndex
            && t.time == now && t.slot < |b.lastSent| && t.slot < MAX_LINKS
            && o.state.lastSent == b.lastSent[t.slot := now]
            && (b.resumeAt == 0 || now >= b.resumeAt)
            && RateOk(b.lastSent[t.slot], LINK_MIN_SEC, now)
            && t.slot < |slots| && t.rfBefore == slots[t.slot].lastRf && BandIdle(slots, t.slot, now)
            && (o.state.active ==> o.state.next == b.next + 1 && o.state.resumeAt == now + LINK_GAP_SEC)
  {
  }

  /** The scheduler part of an advance: what changes, and when it may transmit. */
  lemma AdvanceEffect(b: State, slots: Slots, env: Env, now: int)
    requires now > 0
    ensures var o := SeqAdvance(b, slots, env, now);
            && !o.started && o.state.links == b.links && |o.state.lastSent| == |b.lastSent|
            && (o.state.active ==> b.active && o.state.next >= b.next && (o.state.resumeAt == b.resumeAt || o.state.resumeAt > now))
            && (o.tx == [] ==> o.state.lastSent == b.lastSent)
            && (o.tx != [] ==>
                  var t := o.tx[0];
                  && o.tx == [t] && b.active && b.next < |b.links| && t.index == b.next && t.slot == b.links[b.next].slotIndex
                  && t.time == now && t.slot < |b.lastSent| && t.slot < MAX_LINKS
                  && o.state.lastSent == b.lastSent[t.slot := now]
                  && (b.resumeAt == 0 || now >= b.resumeAt)
                  && RateOk(b.lastSent[t.slot], LINK_MIN_SEC, now)
                  && t.slot < |slots| && t.rfBefore == slots[t.slot].lastRf && BandIdle(slots, t.slot, now)
                  && (o.state.active ==> o.state.next == b.next + 1 && o.state.resumeAt == now + LINK_GAP_SEC))
  {
    hide SeqAdvance, BandIdle, RateOk;
    AdvanceMoves(b, slots, env, now);
    if SeqAdvance(b, slots, env, now).tx != [] {
      AdvanceSends(b, slots, env, now);
    }
  }

  lemma ModuloBelow(x: int)
    requires x >= 0
    ensures x % UINT_MODULUS <= x
  {
  }

  /** An advance at a later time keeps the promises. */
  lemma AdvanceSound(s: System, env: Env, now: int)
    requires Sound(s) && now >= s.clock
    ensures Sound(Record(s, SeqAdvance(s.beacon, s.slots, env, now), now))
  {
    var b := s.beacon;
    var o := SeqAdvance(b, s.slots, env, now);
    AdvanceEffect(b, s.slots, env, now);
    hide SeqAdvance;
    var s1 := Record(s, o, now);
    if o.tx == [] {
      forall i | 0 <= i < |s.log| ensures Marked(s1, s1.log[i]) {
        assert Marked(s, s.log[i]);
      }
    } else {
      var t := o.tx[0];
      var entry := Entry(s.cycle, b.links, t);
      assert s1.log == s.log + [entry];
      TransmissionSpaced(s, entry, now);
      if s.slots[t.slot].lastRf != 0 {
        ModuloBelow(now - s.slots[t.slot].lastRf);
      }
      assert QuietBand(entry) && FromSnapshot(entry);
      forall i | 0 <= i < |s1.log| ensures Marked(s1, s1.log[i]) {
        if i < |s.log| {
          assert Marked(s, s.log[i]);
        }
      }
    }
  }

  /** A transmission that the scheduler allows is spaced from all earlier ones. */
  lemma TransmissionSpaced(s: System, entry: Entry, now: int)
    requires Sound(s) && now >= s.clock && s.beacon.active
    requires entry.cycle == s.cycle && entry.links == s.beacon.links && entry.tx.time == now && entry.tx.index == s.beacon.next
    requires entry.tx.slot < MAX_LINKS && RateOk(s.beacon.lastSent[entry.tx.slot], LINK_MIN_SEC, now)
    requires s.beacon.resumeAt == 0 || now >= s.beacon.resumeAt
    ensures forall i | 0 <= i < |s.log| :: Spaced(s.log[i], entry)
  {
    forall i | 0 <= i < |s.log| ensures Spaced(s.log[i], entry) {
      var e := s.log[i];
      assert Marked(s, e);
      if e.tx.slot == entry.tx.slot {
        ModuloBelow(now - s.beacon.lastSent[e.tx.slot]);
      }
    }
  }

  /** Starting a cycle opens a new number that no entry has. */
  lemma StartSound(s: System, links: seq<Link>, message: string, autoTick: nat)
    requires Sound(s) && !s.beacon.active && DistinctSlots(links)
    ensures Sound(s.(beacon := SeqStart(s.beacon, links, message).(autoTick := autoTick), cycle := s.cycle + 1))
  {
    var s1 := s.(beacon := SeqStart(s.beacon, links, message).(autoTick := autoTick), cycle := s.cycle + 1);
    forall i | 0 <= i < |s.log| ensures Marked(s1, s1.log[i]) {
      assert Marked(s, s.log[i]);
    }
  }

  lemma IdleSound(s: System, b: State, slots: Slots, now: int)
    requires Sound(s) && now >= s.clock && b.lastSent == s.beacon.lastSent && !b.active
    ensures Sound(s.(beacon := b, slots := slots, clock := now))
  {
    var s1 := s.(beacon := b, slots := slots, clock := now);
    forall i | 0 <= i < |s.log| ensures Marked(s1, s1.log[i]) {
      assert Marked(s, s.log[i]);
    }
  }

  /** A tick or a manual beacon advances, starts a cycle and advances it, or idles. */
  lemma TickForms(b: State, slots: Slots, env: Env, now: int)
    ensures var o := Tick(b, slots, env, now);
            || (b.active && o == SeqAdvance(b, slots, env, now))
            || (!b.active && o.started && o == SeqAdvance(SeqStart(b, Snapshot(slots), env.message).(autoTick := 0), slots, env, now).(started := true))
            || (!b.active && !o.started && o.tx == [] && o.slots == slots && !o.state.active && o.state.lastSent == b.lastSent)
  {
  }

  lemma ManualForms(b: State, slots: Slots, env: Env, now: int)
    ensures var o := Manual(b, slots, env, now).0;
            || (!b.active && o.started && o == SeqAdvance(SeqStart(b, Snapshot(slots), env.message), slots, env, now).(started := true))
            || o == Outcome(b, slots, [], false)
  {
  }

  lemma StartedSound(s: System, message: string, autoTick: nat, env: Env, now: int)
    requires Sound(s) && !s.beacon.active && now >= s.clock
    ensures Sound(Record(s, SeqAdvance(SeqStart(s.beacon, Snapshot(s.slots), message).(autoTick := autoTick), s.slots, env, now).(started := true), now))
  {
    assert now > 0;
    hide Tick, Manual, Snapshot, Sound, SeqAdvance;
    SnapshotExact(s.slots);
    StartSound(s, Snapshot(s.slots), message, autoTick);
    var b1 := SeqStart(s.beacon, Snapshot(s.slots), message).(autoTick := autoTick);
    hide SeqStart;
    var s1 := s.(beacon := b1, cycle := s.cycle + 1);
    AdvanceSound(s1, env, now);
    NeverStarts(b1, s.slots, env, now);
    RecordStarted(s, b1, SeqAdvance(b1, s.slots, env, now), now);
  }

  lemma RecordStarted(s: System, b: State, o: Outcome, now: int)
    requires !o.started
    ensures Record(s.(beacon := b, cycle := s.cycle + 1), o, now) == Record(s, o.(started := true), now)
  {
  }

  lemma NeverStarts(b: State, slots: Slots, env: Env, now: int)
    ensures !SeqAdvance(b, slots, env, now).started
  {
  }

  lemma TickSound(s: System, env: Env, now: int)
    requires Sound(s) && now >= s.clock
    ensures Sound(Record(s, Tick(s.beacon, s.slots, env, now), now))
  {
    TickForms(s.beacon, s.slots, env, now);
    var o := Tick(s.beacon, s.slots, env, now);
    hide Tick, SeqAdvance, Snapshot, Sound;
    if s.beacon.active {
      AdvanceSound(s, env, now);
    } else if o.started {
      StartedSound(s, env.message, 0, env, now);
    } else {
      assert s.log + [] == s.log;
      IdleSound(s, o.state, s.slots, now);
    }
  }

  lemma ManualSound(s: System, env: Env, now: int)
    requires Sound(s) && now >= s.clock
    ensures Sound(Record(s, Manual(s.beacon, s.slots, env, now).0, now))
  {
    ManualForms(s.beacon, s.slots, env, now);
    var o := Manual(s.beacon, s.slots, env, now).0;
    hide Manual, SeqAdvance, Snapshot;
    if o.started {
      StartedSound(s, env.message, s.beacon.autoTick, env, now);
    } else if s.beacon.active {
      forall i | 0 <= i < |s.log| ensures Marked(s.(clock := now), s.log[i]) {
        assert Marked(s, s.log[i]);
      }
    } else {
      IdleSound(s, s.beacon, s.slots, now);
    }
  }

  lemma StepSound(s: System, e: Event)
    requires Sound(s) && TimeOf(e, s.clock) >= s.clock
    ensures Sound(Step(s, e)) && Step(s, e).clock == TimeOf(e, s.clock)
  {
    match e
    case TickEv(now, env) => TickSound(s, env, now);
    case ManualEv(now, env) => ManualSound(s, env, now);
    case CancelEv =>
      IdleSound(s, SeqCancel(s.beacon), s.slots, s.clock);
    case HubEv(slots) =>
      forall i | 0 <= i < |s.log| ensures Marked(s.(slots := slots), s.log[i]) {
        assert Marked(s, s.log[i]);
      }
  }

  lemma {:induction false} RunSound(slots: Slots, start: int, events: seq<Event>)
    requires ClockRuns(start, events)
    ensures var s := Run(System(slots, INIT, start, 0, []), events);
            Sound(s) && s.clock == ClockAt(start, events, |events|)
  {
    if events != [] {
      var n := |events| - 1;
      assert forall k | 0 <= k <= n :: ClockAt(start, events[..n], k) == ClockAt(start, events, k) by {
        ClockPrefix(start, events, n);
      }
      RunSound(slots, start, events[..n]);
      StepSound(Run(System(slots, INIT, start, 0, []), events[..n]), events[n]);
    }
  }

  lemma {:induction false} ClockPrefix(start: int, events: seq<Event>, n: nat)
    requires n <= |events|
    ensures forall k | 0 <= k <= n :: ClockAt(start, events[..n], k) == ClockAt(start, events, k)
  {
    forall k | 0 <= k <= n ensures ClockAt(start, events[..n], k) == ClockAt(start, events, k) {
      ClockPrefixAt(start, events, n, k);
    }
  }

  lemma {:induction false} ClockPrefixAt(start: int, events: seq<Event>, n: nat, k: nat)
    requires k <= n <= |events|
    ensures ClockAt(start, events[..n], k) == ClockAt(start, events, k)
  {
    if k > 0 {
      ClockPrefixAt(start, events, n, k - 1);
    }
  }

  /**
   Beacon timing: in any run, any two transmissions on one slot are at least
   900 s apart; two of one cycle are at least 180 s apart and follow the order
   of its snapshot, which lists no slot twice; and every single one found its
   slot's last noted radio activity at least 180 s old and went to the slot
   that the snapshot names.
   */
  lemma BeaconTiming(slots: Slots, start: int, events: seq<Event>, i: nat, j: nat)
    requires ClockRuns(start, events)
    requires i <= j < |Run(System(slots, INIT, start, 0, []), events).log|
    ensures var log := Run(System(slots, INIT, start, 0, []), events).log;
            var (a, b) := (log[i], log[j]);
            && (i < j && a.tx.slot == b.tx.slot ==> b.tx.time - a.tx.time >= 900)
            && (i < j && a.cycle == b.cycle ==> b.tx.time - a.tx.time >= 180 && a.tx.index < b.tx.index && a.tx.slot != b.tx.slot)
            && (a.tx.rfBefore == 0 || a.tx.time - a.tx.rfBefore >= 180)
            && a.tx.index < |a.links| && a.tx.slot == a.links[a.tx.index].slotIndex
  {
    RunSound(slots, start, events);
    var log := Run(System(slots, INIT, start, 0, []), events).log;
    assert (i < j ==> Spaced(log[i], log[j])) && QuietBand(log[i]) && FromSnapshot(log[i]) && FromSnapshot(log[j]);
  }

  /** The next link is due: the cycle runs, its pause is over, and there is a link left. */
  predicate Due(b: State, env: Env, now: int) {
    b.active && env.running && env.cfgPresent && (b.resumeAt == 0 || now >= b.resumeAt) && b.next < |b.links|
  }

  /** A due link is sent to exactly when nothing stands against it. */
  lemma TransmitsExactly(b: State, slots: Slots, env: Env, now: int)
    requires |b.lastSent| == MAX_LINKS == |slots| && Due(b, env, now)
    requires 0 < |b.message| <= MESSAGE_MAX && env.enabled && env.ax25Enabled && env.pathOk
    ensures var l := b.links[b.next];
            SeqAdvance(b, slots, env, now).tx != [] <==>
            && l.mhz > 0.0 && env.wire == Ok && l.slotIndex < MAX_LINKS
            && Qualifies(slots[l.slotIndex]) && slots[l.slotIndex].linkId != ""
            && BandIdle(slots, l.slotIndex, now) && RateOk(b.lastSent[l.slotIndex], LINK_MIN_SEC, now)
  {
    var l := b.links[b.next];
    if l.slotIndex < MAX_LINKS && Qualifies(slots[l.slotIndex]) {
      assert AnyQos(slots);
    }
  }

  /** In a sound hub a transmission is noted as radio activity of the slot it used, and of no other. */
  lemma TransmissionNoted(b: State, slots: Slots, env: Env, now: int, maxLinks: nat)
    requires HubSlots.Sound(slots, maxLinks) && SeqAdvance(b, slots, env, now).tx != []
    ensures var k := b.links[b.next].slotIndex;
            b.next < |b.links| && k < |slots| && SeqAdvance(b, slots, env, now).slots == slots[k := slots[k].(lastRf := now)]
  {
    var k := b.links[b.next].slotIndex;
    NoteRfOwn(slots, k, now, 0);
  }
}
