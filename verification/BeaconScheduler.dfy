/** The beacon scheduler in place: the cycle in progress, the marks per slot, the tick counter. */
module BeaconScheduler {
  import opened HubSlots
  import BroadcastLinks
  import B = Beacon
  import opened HubTable

  class Scheduler {
    var active: bool
    var links: seq<BroadcastLinks.Link>
    var next: nat
    var resumeAt: int
    var message: string
    const linkLastSent: array<int>
    var lastSent: int
    var autoTick: nat

    ghost predicate Valid()
      reads this
    {
      linkLastSent.Length == MAX_LINKS
    }

    ghost function View(): B.State
      reads this, linkLastSent
    {
      B.State(active, links, next, resumeAt, message, linkLastSent[..], lastSent, autoTick)
    }

    constructor ()
      ensures Valid() && fresh(linkLastSent) && View() == B.INIT
    {
      active, links, next, resumeAt, message := false, [], 0, 0, "";
      linkLastSent := new int[MAX_LINKS](_ => 0);
      lastSent, autoTick := 0, 0;
      new;
      assert linkLastSent[..] == seq(MAX_LINKS, i => 0);
    }

    method BandIdle(hub: Hub, i: nat, now: int) returns (idle: bool)
      requires hub.Valid()
      ensures idle == B.BandIdle(hub.slots[..], i, now)
    {
      if i >= MAX_LINKS {
        return false;
      }
      var slot := hub.slots[i];
      if slot.state != Active || slot.fd < 0 {
        return false;
      }
      if slot.lastRf == 0 {
        return true;
      }
      var idleSince := now - slot.lastRf;
      idle := idleSince >= 0 && idleSince % B.UINT_MODULUS >= B.BAND_IDLE_SEC;
    }

    method BandReadyAt(hub: Hub, i: nat, now: int) returns (ready: int)
      requires hub.Valid()
      ensures ready == B.BandReadyAt(hub.slots[..], i, now)
    {
      if i >= MAX_LINKS {
        return -1;
      }
      var slot := hub.slots[i];
      if slot.state != Active || slot.fd < 0 {
        return -1;
      }
      if slot.lastRf == 0 || (now - slot.lastRf) % B.UINT_MODULUS >= B.BAND_IDLE_SEC {
        return now;
      }
      ready := slot.lastRf + B.BAND_IDLE_SEC;
    }

    method DeferUntil(at: int, now: int)
      requires Valid()
      modifies this`resumeAt
      ensures Valid() && View() == B.DeferUntil(old(View()), at, now)
    {
      resumeAt := if at == -1 || at <= now then now + B.DEFER_RETRY_SEC else at;
    }

    method MarkLinkSent(slot: nat, now: int)
      requires Valid()
      modifies this`lastSent, linkLastSent
      ensures Valid() && View() == B.MarkLinkSent(old(View()), slot, now)
    {
      if slot < MAX_LINKS {
        ghost var was := linkLastSent[..];
        linkLastSent[slot] := now;
        lastSent := now;
        assert linkLastSent[..] == was[slot := now];
      }
    }

    method SendSlot(hub: Hub, env: B.Env, slot: nat, now: int) returns (rc: B.Result)
      requires Valid() && hub.Valid()
      modifies this`lastSent, linkLastSent, hub.slots
      ensures Valid() && hub.Valid()
      ensures (View(), hub.slots[..], rc) == B.SendSlot(old(View()), old(hub.slots[..]), env, slot, now)
    {
      if message == "" || slot >= MAX_LINKS {
        return B.Invalid;
      }
      if !env.cfgPresent || !env.enabled || !env.ax25Enabled {
        return B.Unsupported;
      }
      if !env.running {
        return B.Busy;
      }
      var target := hub.slots[slot];
      if !BroadcastLinks.Qualifies(target) || target.linkId == "" {
        return B.Denied;
      }
      var idle := BandIdle(hub, slot, now);
      if !idle {
        return B.Busy;
      }
      if |message| > B.MESSAGE_MAX {
        return B.Invalid;
      }
      var any := hub.AnyBroadcastQos();
      if !any {
        return B.Busy;
      }
      if !env.pathOk {
        return B.Invalid;
      }
      if env.wire != B.Ok {
        return env.wire;
      }
      hub.NoteRfActivity(target.linkId, now);
      MarkLinkSent(slot, now);
      rc := B.Ok;
    }

    method NextLink(now: int)
      requires Valid()
      modifies this`next, this`active, this`resumeAt
      ensures Valid() && View() == B.NextLink(old(View()), now)
    {
      next := next + 1;
      if next < |links| {
        resumeAt := now + B.LINK_GAP_SEC;
      } else {
        active := false;
        resumeAt := 0;
      }
    }

    method SeqAdvance(hub: Hub, env: B.Env, now: int) returns (tx: seq<B.Tx>)
      requires Valid() && hub.Valid() && linkLastSent != hub.slots as object
      modifies this, linkLastSent, hub.slots
      ensures Valid() && hub.Valid()
      ensures B.Outcome(View(), hub.slots[..], tx, false) == B.SeqAdvance(old(View()), old(hub.slots[..]), env, now)
    {
      hide B.SendSlot, B.NextLink, B.DeferUntil, B.BandIdle, B.BandReadyAt, B.RateOk;
      tx := [];
      if !active {
        return;
      }
      if !env.running {
        active := false;
        return;
      }
      if resumeAt != 0 && now < resumeAt {
        return;
      }
      if next >= |links| || !env.cfgPresent {
        active := false;
        return;
      }
      var link := links[next];
      var slot := link.slotIndex;
      if link.mhz <= 0.0 {
        NextLink(now);
        return;
      }
      var idle := BandIdle(hub, slot, now);
      if !idle {
        var ready := BandReadyAt(hub, slot, now);
        DeferUntil(ready, now);
        return;
      }
      if slot >= MAX_LINKS || !B.RateOk(linkLastSent[slot], B.LINK_MIN_SEC, now) {
        DeferUntil(now + B.DEFER_RETRY_SEC, now);
        return;
      }
      var rfBefore := hub.slots[slot].lastRf;
      var rc := SendSlot(hub, env, slot, now);
      match rc
      case Ok =>
        tx := [B.Tx(now, slot, next, rfBefore)];
        NextLink(now);
      case Busy =>
        var ready := BandReadyAt(hub, slot, now);
        DeferUntil(ready, now);
      case Denied =>
        DeferUntil(now + B.DEFER_RETRY_SEC, now);
      case _ =>
        NextLink(now);
    }

    method SeqStart(snapshot: array<BroadcastLinks.Link>, text: string)
      requires Valid()
      modifies this`active, this`links, this`next, this`resumeAt, this`message
      ensures Valid() && View() == B.SeqStart(old(View()), snapshot[..], text)
    {
      active, links, next, resumeAt, message := true, snapshot[..], 0, 0, text;
    }

    method SeqCancel()
      requires Valid()
      modifies this`active, this`resumeAt
      ensures Valid() && View() == B.SeqCancel(old(View()))
    {
      active, resumeAt := false, 0;
    }

    method Tick(hub: Hub, env: B.Env, now: int) returns (tx: seq<B.Tx>, started: bool)
      requires Valid() && hub.Valid() && linkLastSent != hub.slots as object
      modifies this, linkLastSent, hub.slots
      ensures Valid() && hub.Valid()
      ensures B.Outcome(View(), hub.slots[..], tx, started) == B.Tick(old(View()), old(hub.slots[..]), env, now)
    {
      hide B.SeqAdvance, BroadcastLinks.Snapshot;
      tx, started := [], false;
      ghost var b := View();
      ghost var slots := hub.slots[..];
      NotStarted(b, slots, env, now);
      if active {
        tx := SeqAdvance(hub, env, now);
        return;
      }
      if !env.cfgPresent || !env.enabled || !env.ax25Enabled || !env.auto || !env.running || env.interval == 0 {
        return;
      }
      var snapshot := hub.SnapshotLinks();
      if snapshot.Length == 0 {
        assert snapshot[..] == [];
        return;
      }
      autoTick := autoTick + 1;
      if env.message == "" || autoTick < env.interval || !B.RateOk(lastSent, env.interval, now) {
        return;
      }
      SeqStart(snapshot, env.message);
      autoTick := 0;
      tx := SeqAdvance(hub, env, now);
      started := true;
    }

    lemma NotStarted(b: B.State, slots: Slots, env: B.Env, now: int)
      ensures !B.SeqAdvance(b, slots, env, now).started
    {
    }

    method Manual(hub: Hub, env: B.Env, now: int) returns (tx: seq<B.Tx>, started: bool, rc: B.Result)
      requires Valid() && hub.Valid() && linkLastSent != hub.slots as object
      modifies this, linkLastSent, hub.slots
      ensures Valid() && hub.Valid()
      ensures (B.Outcome(View(), hub.slots[..], tx, started), rc) == B.Manual(old(View()), old(hub.slots[..]), env, now)
    {
      hide B.SeqAdvance, BroadcastLinks.Snapshot;
      tx, started := [], false;
      if active {
        return tx, started, B.Busy;
      }
      if !env.cfgPresent || !env.enabled || !env.ax25Enabled {
        return tx, started, B.Unsupported;
      }
      if !env.running {
        return tx, started, B.Busy;
      }
      var snapshot := hub.SnapshotLinks();
      if snapshot.Length == 0 {
        assert snapshot[..] == [];
        return tx, started, B.Denied;
      }
      if env.message == "" {
        return tx, started, B.Invalid;
      }
      SeqStart(snapshot, env.message);
      tx := SeqAdvance(hub, env, now);
      started := true;
      rc := B.Ok;
    }
  }
}
