/** When a beacon cycle sends, waits or moves on, in terms of seconds and of what it finds. */
module BeaconWaits {
  import opened HubSlots
  import opened BroadcastLinks
  import opened Beacon
  import R = BeaconRuns

  /** The clock is past the epoch, fits 32 bits, and is not behind any recorded time. */
  ghost predicate Timely(b: State, slots: Slots, now: int) {
    && 0 < now < UINT_MODULUS && |b.lastSent| == 16 == |slots|
    && (forall k | 0 <= k < 16 :: 0 <= b.lastSent[k] <= now && 0 <= slots[k].lastRf <= now)
  }

  predicate Live(s: Slot) {
    s.state == Active && s.fd >= 0
  }

  /** Never heard, or not for 180 seconds. */
  predicate Quiet(s: Slot, now: int) {
    s.lastRf == 0 || now - s.lastRf >= 180
  }

  /** Never sent to, or not for 900 seconds. */
  predicate Rested(last: int, now: int) {
    last == 0 || now - last >= 900
  }

  lemma BandIdleExactly(b: State, slots: Slots, k: nat, now: int)
    requires Timely(b, slots, now) && k < 16
    ensures BandIdle(slots, k, now) <==> Live(slots[k]) && Quiet(slots[k], now)
    ensures RateOk(b.lastSent[k], LINK_MIN_SEC, now) <==> Rested(b.lastSent[k], now)
    ensures BandReadyAt(slots, k, now) ==
            if !Live(slots[k]) then -1 else if Quiet(slots[k], now) then now else slots[k].lastRf + 180
  {
  }

  /** The send cannot succeed on any link: no message, too long a one, beacons off, no path, or a broken transport. */
  predicate Hopeless(b: State, env: Env) {
    || b.message == "" || |b.message| > 48 || !env.enabled || !env.ax25Enabled || !env.pathOk
    || (env.wire != Ok && env.wire != Busy && env.wire != Denied)
  }

  /** The cycle stays at its link, with nothing sent, until the given time. */
  predicate WaitsUntil(b: State, slots: Slots, o: Outcome, time: int) {
    o == Outcome(b.(resumeAt := time), slots, [], false)
  }

  /** The cycle has done with its link: 180 seconds until the next, or its end. */
  predicate Leaves(b: State, o: Outcome, now: int) {
    && o.state.next == b.next + 1 && o.state.links == b.links && o.state.message == b.message && !o.started
    && o.state.active == (b.next + 1 < |b.links|)
    && o.state.resumeAt == if b.next + 1 < |b.links| then now + 180 else 0
  }

  /**
   What a due advance does.  A link without frequency is left; one that is not
   live, or was sent to less than 900 s ago, is tried again in 30 s; one that
   was heard less than 180 s ago is tried again when it has been quiet for 180 s.
   */
  lemma AdvanceWaits(b: State, slots: Slots, env: Env, now: int)
    requires R.Due(b, env, now) && Timely(b, slots, now) && b.links[b.next].slotIndex < 16
    ensures var o := SeqAdvance(b, slots, env, now);
            var l := b.links[b.next];
            var s := slots[l.slotIndex];
            && (l.mhz <= 0.0 ==> Leaves(b, o, now) && o.tx == [] && o.slots == slots && o.state.lastSent == b.lastSent)
            && (l.mhz > 0.0 && !Live(s) ==> WaitsUntil(b, slots, o, now + 30))
            && (l.mhz > 0.0 && Live(s) && !Quiet(s, now) ==> WaitsUntil(b, slots, o, s.lastRf + 180))
            && (l.mhz > 0.0 && Live(s) && Quiet(s, now) && !Rested(b.lastSent[l.slotIndex], now) ==> WaitsUntil(b, slots, o, now + 30))
  {
    BandIdleExactly(b, slots, b.links[b.next].slotIndex, now);
    hide BandIdle, RateOk, BandReadyAt, SendSlot;
  }

  /** A link that nothing on the air stands against. */
  ghost predicate Open(b: State, slots: Slots, now: int)
    requires Timely(b, slots, now) && b.next < |b.links| && b.links[b.next].slotIndex < 16
  {
    var l := b.links[b.next];
    l.mhz > 0.0 && Live(slots[l.slotIndex]) && Quiet(slots[l.slotIndex], now) && Rested(b.lastSent[l.slotIndex], now)
  }

  /** What a send to a slot answers, in the order in which it looks. */
  lemma SendExactly(b: State, slots: Slots, env: Env, k: nat, now: int)
    requires Timely(b, slots, now)
    ensures var rc := SendSlot(b, slots, env, k, now).2;
            rc == if b.message == "" || k >= 16 then Invalid
                  else if !(env.cfgPresent && env.enabled && env.ax25Enabled) then Unsupported
                  else if !env.running then Busy
                  else if !(Live(slots[k]) && slots[k].qos && slots[k].linkId != "") then Denied
                  else if !Quiet(slots[k], now) then Busy
                  else if |b.message| > 48 || !env.pathOk then Invalid
                  else env.wire
  {
    if k < 16 {
      BandIdleExactly(b, slots, k, now);
    }
    hide BandIdle, RateOk, BandReadyAt;
  }

  /** What the send answers for such a link. */
  lemma SendAnswers(b: State, slots: Slots, env: Env, now: int)
    requires R.Due(b, env, now) && Timely(b, slots, now) && b.links[b.next].slotIndex < 16 && Open(b, slots, now)
    ensures var k := b.links[b.next].slotIndex;
            var off := b.message == "" || !env.enabled || !env.ax25Enabled;
            var carries := slots[k].qos && slots[k].linkId != "";
            var rc := SendSlot(b, slots, env, k, now).2;
            && (off ==> rc == Invalid || rc == Unsupported)
            && (!off && !carries ==> rc == Denied)
            && (!off && carries && (|b.message| > 48 || !env.pathOk) ==> rc == Invalid)
            && (!off && carries && |b.message| <= 48 && env.pathOk ==> rc == env.wire)
  {
    var k := b.links[b.next].slotIndex;
    BandIdleExactly(b, slots, k, now);
    hide BandIdle, RateOk, BandReadyAt;
  }

  /**
   And a link that nothing on the air stands against is sent to, and left, when
   it can carry the beacon and the transport takes it; it is tried again in 30 s
   when it cannot, or when the transport is busy or denies it; and it is left
   without a beacon when the send is hopeless.
   */
  lemma AdvanceSendsOpen(b: State, slots: Slots, env: Env, now: int)
    requires R.Due(b, env, now) && Timely(b, slots, now) && b.links[b.next].slotIndex < 16 && Open(b, slots, now)
    ensures var o := SeqAdvance(b, slots, env, now);
            var k := b.links[b.next].slotIndex;
            var off := b.message == "" || !env.enabled || !env.ax25Enabled;
            var carries := slots[k].qos && slots[k].linkId != "";
            && (off ==> Leaves(b, o, now) && o.tx == [])
            && (!off && !carries ==> WaitsUntil(b, slots, o, now + 30))
            && (!off && carries && Hopeless(b, env) ==> Leaves(b, o, now) && o.tx == [])
            && (!off && carries && !Hopeless(b, env) && env.wire == Ok ==>
                  Leaves(b, o, now) && o.tx == [Tx(now, k, b.next, slots[k].lastRf)] && o.state.lastSent == b.lastSent[k := now])
            && (!off && carries && !Hopeless(b, env) && env.wire != Ok ==> WaitsUntil(b, slots, o, now + 30))
  {
    var k := b.links[b.next].slotIndex;
    BandIdleExactly(b, slots, k, now);
    SendAnswers(b, slots, env, now);
    R.SendSlotKeeps(b, slots, env, k, now);
    SendMarks(b, slots, env, k, now);
    hide BandIdle, RateOk, BandReadyAt, SendSlot;
  }

  lemma SendMarks(b: State, slots: Slots, env: Env, k: nat, now: int)
    requires k < |b.lastSent|
    ensures var (b1, slots1, rc) := SendSlot(b, slots, env, k, now);
            && (rc == Ok ==> b1.lastSent == b.lastSent[k := now]) && (rc != Ok ==> slots1 == slots)
  {
  }

  /** A cycle that is not due sends nothing; it ends if the hub, its configuration or its links are gone, and otherwise waits. */
  lemma AdvanceNotDue(b: State, slots: Slots, env: Env, now: int)
    requires !R.Due(b, env, now)
    ensures var o := SeqAdvance(b, slots, env, now);
            && o.slots == slots && o.tx == [] && o.state == b.(active := o.state.active)
            && (o.state.active <==> b.active && env.running && b.resumeAt != 0 && now < b.resumeAt)
  {
  }

  // ---------- when a cycle starts ----------

  /** Beacons are configured and the hub runs. */
  predicate Enabled(env: Env) {
    env.cfgPresent && env.enabled && env.ax25Enabled && env.running
  }

  /**
   The periodic tick starts a cycle if and only if none runs, beacons are on and
   automatic, a link qualifies, there is a message, this is at least the
   interval-th tick since the last start, and the last beacon is that old.
   */
  lemma TickStarts(b: State, slots: Slots, env: Env, now: int)
    requires 0 <= b.lastAny <= now < UINT_MODULUS
    ensures var o := Tick(b, slots, env, now);
            o.started <==>
            && !b.active && Enabled(env) && env.auto && env.interval > 0 && env.message != ""
            && (exists k | 0 <= k < |slots| :: Live(slots[k]) && slots[k].qos)
            && b.autoTick + 1 >= env.interval && (b.lastAny == 0 || now - b.lastAny >= env.interval)
    ensures var o := Tick(b, slots, env, now);
            o.started ==>
              exists b0 :: b0 == b.(active := true, links := Snapshot(slots), next := 0, resumeAt := 0, message := env.message, autoTick := 0)
                           && o == SeqAdvance(b0, slots, env, now).(started := true)
    ensures b.active ==> Tick(b, slots, env, now) == SeqAdvance(b, slots, env, now)
    ensures var o := Tick(b, slots, env, now); !b.active && !o.started ==> o.slots == slots && o.tx == [] && o.state == b.(autoTick := o.state.autoTick)
  {
    SnapshotSome(slots);
    R.NeverStarts(b, slots, env, now);
    hide Snapshot, SeqAdvance;
  }

  /** There is something to send to exactly when an active, connected slot has the profile for it. */
  lemma SnapshotSome(slots: Slots)
    ensures Snapshot(slots) != [] <==> exists k | 0 <= k < |slots| :: Live(slots[k]) && slots[k].qos
  {
    SnapshotExact(slots);
    if k: nat :| k < |slots| && Live(slots[k]) && slots[k].qos {
      assert Qualifies(slots[k]);
      assert Link(slots[k].mhz, k, slots[k].linkId) in Snapshot(slots);
    }
    if Snapshot(slots) != [] {
      var l := Snapshot(slots)[0];
      assert Qualifies(slots[l.slotIndex]);
    }
  }

  /** The operator's request starts a cycle at once, or says why not. */
  lemma ManualAnswers(b: State, slots: Slots, env: Env, now: int)
    ensures var (o, rc) := Manual(b, slots, env, now);
            var some := exists k | 0 <= k < |slots| :: Live(slots[k]) && slots[k].qos;
            && (o.started <==> rc == Ok)
            && (rc == Ok <==> !b.active && Enabled(env) && some && env.message != "")
            && (rc == Denied <==> !b.active && Enabled(env) && !some)
            && (rc == Invalid <==> !b.active && Enabled(env) && some && env.message == "")
            && (rc == Unsupported <==> !b.active && !(env.cfgPresent && env.enabled && env.ax25Enabled))
            && (rc != Ok ==> o == Outcome(b, slots, [], false))
            && (rc == Ok ==> o == SeqAdvance(b.(active := true, links := Snapshot(slots), next := 0, resumeAt := 0, message := env.message), slots, env, now).(started := true))
  {
    SnapshotSome(slots);
    R.NeverStarts(b, slots, env, now);
    hide Snapshot, SeqAdvance;
  }

  // ---------- every link of a cycle is dealt with ----------

  /** An advance that an event makes: the cycle and the state it starts from. */
  datatype Advance = Advance(cycle: nat, b: State, slots: Slots, env: Env, now: int)

  datatype Made = Nothing | Made(a: Advance)

  function MadeBy(s: R.System, e: R.Event): Made {
    match e
    case TickEv(now, env) =>
      if s.beacon.active then Made(Advance(s.cycle, s.beacon, s.slots, env, now))
      else if Tick(s.beacon, s.slots, env, now).started then
        Made(Advance(s.cycle + 1, SeqStart(s.beacon, Snapshot(s.slots), env.message).(autoTick := 0), s.slots, env, now))
      else Nothing
    case ManualEv(now, env) =>
      if Manual(s.beacon, s.slots, env, now).0.started then
        Made(Advance(s.cycle + 1, SeqStart(s.beacon, Snapshot(s.slots), env.message), s.slots, env, now))
      else Nothing
    case _ => Nothing
  }

  /** The advance sent the beacon, or left the link because it has no frequency or the send was hopeless. */
  ghost predicate Settles(a: Advance, q: nat) {
    && a.b.next == q && q < |a.b.links|
    && (SeqAdvance(a.b, a.slots, a.env, a.now).tx != [] || a.b.links[q].mhz <= 0.0 || Hopeless(a.b, a.env))
  }

  lemma LeavesForReason(b: State, slots: Slots, env: Env, now: int)
    ensures var o := SeqAdvance(b, slots, env, now);
            && o.state.links == b.links && (o.state.next == b.next || o.state.next == b.next + 1)
            && (o.state.next == b.next + 1 ==> b.next < |b.links| && (o.tx != [] || b.links[b.next].mhz <= 0.0 || Hopeless(b, env)))
  {
    if b.next < |b.links| {
      R.SendSlotKeeps(b, slots, env, b.links[b.next].slotIndex, now);
      FailsHopeless(b, slots, env, b.links[b.next].slotIndex, now);
    }
    hide BandIdle, RateOk, BandReadyAt, SendSlot;
  }

  lemma FailsHopeless(b: State, slots: Slots, env: Env, k: nat, now: int)
    ensures var rc := SendSlot(b, slots, env, k, now).2;
            env.cfgPresent && BandIdle(slots, k, now) && rc != Ok && rc != Busy && rc != Denied ==> Hopeless(b, env)
  {
  }

  lemma StepMakes(s: R.System, e: R.Event)
    ensures var m := MadeBy(s, e);
            if m.Nothing? then R.Step(s, e).beacon.next == s.beacon.next && R.Step(s, e).beacon.links == s.beacon.links && R.Step(s, e).cycle == s.cycle
            else
              var o := SeqAdvance(m.a.b, m.a.slots, m.a.env, m.a.now);
              && R.Step(s, e).beacon == o.state && R.Step(s, e).cycle == m.a.cycle
              && (m.a.cycle == s.cycle ==> m.a.b.next == s.beacon.next && m.a.b.links == s.beacon.links)
              && (m.a.cycle != s.cycle ==> m.a.b.next == 0)
  {
    match e
    case TickEv(now, env) =>
      R.NeverStarts(s.beacon, s.slots, env, now);
      hide SeqAdvance, Snapshot;
    case ManualEv(now, env) => hide SeqAdvance, Snapshot;
    case _ =>
  }

  /**
   Nobody is passed over: over any run, each link of the present cycle before
   the one it is at was sent its beacon in this cycle, or left for one of the two reasons.
   */
  lemma {:induction false} NobodyPassedOver(slots: Slots, start: int, events: seq<R.Event>, q: nat)
    requires q < R.Run(R.System(slots, INIT, start, 0, []), events).beacon.next
    ensures var s := R.Run(R.System(slots, INIT, start, 0, []), events);
            exists n ::
              && 0 <= n < |events|
              && var m := MadeBy(R.Run(R.System(slots, INIT, start, 0, []), events[..n]), events[n]);
                 m.Made? && m.a.cycle == s.cycle && m.a.b.links == s.beacon.links && Settles(m.a, q)
  {
    hide R.Step, MadeBy, Settles, SeqAdvance;
    var init := R.System(slots, INIT, start, 0, []);
    if events != [] {
      var k := |events| - 1;
      var before := R.Run(init, events[..k]);
      StepMakes(before, events[k]);
      var m := MadeBy(before, events[k]);
      if m.Made? {
        LeavesForReason(m.a.b, m.a.slots, m.a.env, m.a.now);
      }
      if m.Made? && q == m.a.b.next {
        SettlesNow(m.a, q);
      } else {
        NobodyPassedOver(slots, start, events[..k], q);
        var n :| 0 <= n < k && (var m := MadeBy(R.Run(init, events[..k][..n]), events[..k][n]);
                                m.Made? && m.a.cycle == before.cycle && m.a.b.links == before.beacon.links && Settles(m.a, q));
        assert events[..k][..n] == events[..n];
      }
    }
  }

  lemma SettlesNow(a: Advance, q: nat)
    requires q == a.b.next && SeqAdvance(a.b, a.slots, a.env, a.now).state.next == a.b.next + 1
    ensures Settles(a, q)
  {
    LeavesForReason(a.b, a.slots, a.env, a.now);
  }

  /** Cancelling stops the cycle and forgets its waiting time, nothing else. */
  lemma CancelStops(b: State)
    ensures SeqCancel(b) == b.(active := false, resumeAt := 0)
  {
  }

  /** Where 32 bits wrap: a slot last heard, or sent to, 2^32 seconds ago counts as just heard, or sent to. */
  lemma Wraps(slots: Slots, k: nat, now: int)
    requires k < 16 && k < |slots| && slots[k].lastRf > 0 && now == slots[k].lastRf + 0x1_0000_0000
    ensures !BandIdle(slots, k, now) && !RateOk(slots[k].lastRf, LINK_MIN_SEC, now)
  {
  }

  /** And a clock behind the recorded times: the band is not idle, but the rate is no obstacle. */
  lemma ClockBehind(slots: Slots, k: nat, now: int)
    requires k < |slots| && 0 < now < slots[k].lastRf
    ensures !BandIdle(slots, k, now) && RateOk(slots[k].lastRf, LINK_MIN_SEC, now)
  {
  }

  // ---------- a run that sends ----------

  /** One link, active and never heard; nothing else. */
  function OneLink(): Slots {
    AllFree()[0 := Slot(Active, 5, "A", true, 144.8, 0)]
  }

  const READY := Env(true, true, true, true, false, 0, "hello", true, Ok)

  lemma OneLinkSlots()
    ensures |OneLink()| == 16 && OneLink()[0] == Slot(Active, 5, "A", true, 144.8, 0)
    ensures forall k | 0 <= k < 16 :: Qualifies(OneLink()[k]) <==> k == 0
  {
  }

  lemma OneLinkSnapshot()
    ensures Snapshot(OneLink()) == [Link(144.8, 0, "A")]
  {
    OneLinkSlots();
    hide OneLink, Qualifies, Snapshot, Sorted;
    SnapshotExact(OneLink());
    AllSame(Snapshot(OneLink()), Link(144.8, 0, "A"));
  }

  lemma AllSame(links: seq<Link>, l: Link)
    requires l in links && DistinctSlots(links) && forall i | 0 <= i < |links| :: links[i] == l
    ensures links == [l]
  {
    assert !(|links| > 1 && links[0].slotIndex != links[1].slotIndex);
  }

  /** The operator's request at second 1000 sends the beacon at once, and the cycle is over. */
  lemma RequestIsSent()
    ensures var s := R.Run(R.System(OneLink(), INIT, 1, 0, []), [R.ManualEv(1000, READY)]);
            && s.log == [R.Entry(1, [Link(144.8, 0, "A")], Tx(1000, 0, 0, 0))] && !s.beacon.active && s.clock == 1000
            && s.slots == OneLink()[0 := Slot(Active, 5, "A", true, 144.8, 1000)]
            && s.beacon.lastSent == INIT.lastSent[0 := 1000]
  {
    OneLinkSnapshot();
    var b0 := SeqStart(INIT, [Link(144.8, 0, "A")], "hello");
    RequestAdvance(b0);
    ManualAnswers(INIT, OneLink(), READY, 1000);
    assert Live(OneLink()[0]);
    assert [R.ManualEv(1000, READY)][..0] == [];
    hide SeqAdvance, Snapshot, OneLink;
    assert Manual(INIT, OneLink(), READY, 1000).0 == SeqAdvance(b0, OneLink(), READY, 1000).(started := true);
  }

  lemma RequestAdvance(b0: State)
    requires b0 == SeqStart(INIT, [Link(144.8, 0, "A")], "hello")
    ensures var o := SeqAdvance(b0, OneLink(), READY, 1000);
            && o.tx == [Tx(1000, 0, 0, 0)] && !o.started && o.state.links == b0.links && !o.state.active
            && o.state.lastSent == INIT.lastSent[0 := 1000] && o.slots == OneLink()[0 := Slot(Active, 5, "A", true, 144.8, 1000)]
  {
    assert AnyQos(OneLink()) by {
      assert OneLink()[0].state == Active && OneLink()[0].qos;
    }
  }
}
