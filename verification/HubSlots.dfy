/**
 The link slots of the circuit hub, on values: accepting a connection,
 authenticating it (which evicts a stale link of the same id), activating,
 noting radio activity and closing.  HubTable.dfy does this in place.
 Each operation is one atomic step.
 */
module HubSlots {
  const MAX_LINKS: nat := 16
  const DEFAULT_MAX_LINKS: nat := 8

  datatype SlotState = Free | Connecting | Active

  /** `qos`: the profile is set, low-bandwidth and half-duplex; `mhz`: the effective frequency, 0 if unknown. */
  datatype Slot = Slot(state: SlotState, fd: int, linkId: string, qos: bool, mhz: real, lastRf: int)

  type Slots = seq<Slot>

  const FREE_SLOT := Slot(Free, -1, "", false, 0.0, 0)

  function NormalMaxLinks(wanted: nat): (n: nat)
    ensures 1 <= n <= MAX_LINKS
  {
    if wanted == 0 || wanted > MAX_LINKS then DEFAULT_MAX_LINKS else wanted
  }

  function CountUsed(slots: Slots): nat {
    if slots == [] then 0
    else CountUsed(slots[..|slots| - 1]) + (if slots[|slots| - 1].state != Free then 1 else 0)
  }

  predicate Usable(s: Slot) {
    s.state == Free && s.fd < 0
  }

  /** The first index at or after `from` with a free slot, or -1. */
  function FindFree(slots: Slots, from: nat): (i: int)
    requires from <= |slots|
    ensures i == -1 || (from <= i < |slots| && Usable(slots[i]))
    ensures i == -1 ==> forall k | from <= k < |slots| :: !Usable(slots[k])
    decreases |slots| - from
  {
    if from == |slots| then -1
    else if Usable(slots[from]) then from
    else FindFree(slots, from + 1)
  }

  predicate Holds(slots: Slots, k: nat, id: string, except: nat)
    requires k < |slots|
  {
    k != except && slots[k].state != Free && slots[k].linkId != "" && slots[k].linkId == id
  }

  /** The first slot in use that holds a non-empty link id, other than `except`, or -1. */
  function FindById(slots: Slots, id: string, except: nat, from: nat): (i: int)
    requires from <= |slots|
    ensures i == -1 || (from <= i < |slots| && id != "" && Holds(slots, i, id, except))
    ensures i == -1 ==> id == "" || forall k | from <= k < |slots| :: !Holds(slots, k, id, except)
    ensures i >= 0 ==> forall k | from <= k < i :: !Holds(slots, k, id, except)
    decreases |slots| - from
  {
    if id == "" || from == |slots| then -1
    else if Holds(slots, from, id, except) then from
    else FindById(slots, id, except, from + 1)
  }

  datatype AcceptResult = Accepted(slot: nat) | MaxLinksReached | NoSlot | AllocFailed(slot: nat) | ThreadFailed(slot: nat)

  /** `allocOk`, `threadOk`: whether the balancer and the link thread can be created. */
  function Accept(slots: Slots, maxLinks: nat, client: int, allocOk: bool, threadOk: bool): (Slots, AcceptResult) {
    if CountUsed(slots) >= maxLinks then (slots, MaxLinksReached) else
    var i := FindFree(slots, 0);
    if i < 0 then (slots, NoSlot)
    else if !allocOk then (slots[i := slots[i].(fd := -1, state := Free)], AllocFailed(i))
    else
      var slots1 := slots[i := slots[i].(fd := client, state := Connecting)];
      if threadOk then (slots1, Accepted(i)) else (Close(slots1, i), ThreadFailed(i))
  }

  function Closed(fd: int): (r: int)
    ensures r < 0
  {
    if fd >= 0 then -1 else fd
  }

  /** Close the descriptor; the slot stays in use until it is reset. */
  function CloseFd(slots: Slots, i: nat): Slots
    requires i < |slots|
  {
    slots[i := slots[i].(fd := Closed(slots[i].fd))]
  }

  function Reset(slots: Slots, i: nat): Slots
    requires i < |slots|
  {
    slots[i := slots[i].(qos := false, mhz := 0.0, linkId := "", lastRf := 0, state := Free)]
  }

  function Close(slots: Slots, i: nat): Slots
    requires i < |slots|
  {
    Reset(CloseFd(slots, i), i)
  }

  /** A reconnect replaces the stale link: its descriptor and id go, its thread resets the slot later. */
  function Evict(slots: Slots, i: nat): Slots
    requires i < |slots|
  {
    slots[i := slots[i].(fd := Closed(slots[i].fd), linkId := "")]
  }

  datatype AuthResult = AuthOk | AuthDenied | DuplicateId

  /** `passOk`: the link is known and its password right. */
  function Auth(slots: Slots, i: nat, id: string, passOk: bool, qos: bool, mhz: real): (Slots, AuthResult)
    requires i < |slots|
  {
    if !passOk then (slots, AuthDenied) else
    var stale := FindById(slots, id, i, 0);
    var slots1 := if stale >= 0 then Evict(slots, stale) else slots;
    if stale >= 0 && FindById(slots1, id, i, 0) >= 0 then (slots1, DuplicateId)
    else (slots1[i := slots1[i].(linkId := id, qos := qos, mhz := mhz)], AuthOk)
  }

  function Activate(slots: Slots, i: nat, now: int): Slots
    requires i < |slots|
  {
    slots[i := slots[i].(state := Active, lastRf := now)]
  }

  predicate Carries(s: Slot, id: string) {
    s.state == Active && s.fd >= 0 && s.linkId == id
  }

  /** The first active slot of the link, at or after `from`, is marked. */
  function NoteRf(slots: Slots, id: string, now: int, from: nat): Slots
    requires from <= |slots|
    decreases |slots| - from
  {
    if id == "" || from == |slots| then slots
    else if Carries(slots[from], id) then slots[from := slots[from].(lastRf := now)]
    else NoteRf(slots, id, now, from + 1)
  }

  // ---------- the slot invariant over whole runs ----------

  ghost predicate Sound(slots: Slots, maxLinks: nat) {
    && |slots| == MAX_LINKS && 1 <= maxLinks <= MAX_LINKS && CountUsed(slots) <= maxLinks
    && (forall i | 0 <= i < |slots| && slots[i].state == Free :: slots[i].fd < 0 && slots[i].linkId == "")
    && (forall i, j | 0 <= i < j < |slots| && slots[i].state != Free && slots[j].state != Free && slots[i].linkId != "" ::
          slots[i].linkId != slots[j].linkId)
  }

  lemma {:induction false} CountUpdate(slots: Slots, i: nat, s: Slot)
    requires i < |slots|
    ensures CountUsed(slots[i := s]) ==
            CountUsed(slots) - (if slots[i].state != Free then 1 else 0) + (if s.state != Free then 1 else 0)
  {
    var n := |slots| - 1;
    if i < n {
      CountUpdate(slots[..n], i, s);
      assert slots[i := s][..n] == slots[..n][i := s];
    } else {
      assert slots[i := s][..n] == slots[..n];
    }
  }

  lemma {:induction false} CountAllUsed(slots: Slots)
    ensures CountUsed(slots) <= |slots|
    ensures (forall k | 0 <= k < |slots| :: slots[k].state != Free) ==> CountUsed(slots) == |slots|
  {
    if slots != [] {
      CountAllUsed(slots[..|slots| - 1]);
    }
  }

  /** Below the limit the search for a free slot always succeeds. */
  lemma FreeSlotExists(slots: Slots, maxLinks: nat)
    requires Sound(slots, maxLinks) && CountUsed(slots) < maxLinks
    ensures 0 <= FindFree(slots, 0) < |slots|
  {
    CountAllUsed(slots);
  }

  lemma AcceptNeverStuck(slots: Slots, maxLinks: nat, client: int, allocOk: bool, threadOk: bool)
    requires Sound(slots, maxLinks)
    ensures !Accept(slots, maxLinks, client, allocOk, threadOk).1.NoSlot?
  {
    if CountUsed(slots) < maxLinks {
      FreeSlotExists(slots, maxLinks);
    }
  }

  lemma AcceptSound(slots: Slots, maxLinks: nat, client: int, allocOk: bool, threadOk: bool)
    requires Sound(slots, maxLinks) && client >= 0
    ensures Sound(Accept(slots, maxLinks, client, allocOk, threadOk).0, maxLinks)
  {
    var i := FindFree(slots, 0);
    if CountUsed(slots) < maxLinks && i >= 0 {
      var s1 := slots[i].(fd := client, state := Connecting);
      CountUpdate(slots, i, slots[i].(fd := -1, state := Free));
      CountUpdate(slots, i, s1);
      var slots1 := slots[i := s1];
      assert Sound(slots1, maxLinks);
      CloseSound(slots1, maxLinks, i);
    }
  }

  lemma CloseSound(slots: Slots, maxLinks: nat, i: nat)
    requires Sound(slots, maxLinks) && i < |slots|
    ensures Sound(CloseFd(slots, i), maxLinks) && Sound(Close(slots, i), maxLinks)
  {
    CountUpdate(slots, i, CloseFd(slots, i)[i]);
    var slots1 := CloseFd(slots, i);
    CountUpdate(slots1, i, Reset(slots1, i)[i]);
  }

  lemma EvictSound(slots: Slots, maxLinks: nat, i: nat)
    requires Sound(slots, maxLinks) && i < |slots|
    ensures Sound(Evict(slots, i), maxLinks)
  {
    CountUpdate(slots, i, Evict(slots, i)[i]);
  }

  /** After the eviction nobody else holds the id, so the duplicate failure cannot happen. */
  lemma EvictionSuffices(slots: Slots, maxLinks: nat, id: string, i: nat)
    requires Sound(slots, maxLinks) && i < |slots|
    ensures var stale := FindById(slots, id, i, 0);
            stale >= 0 ==> FindById(Evict(slots, stale), id, i, 0) == -1
  {
  }

  lemma AuthNeverDuplicate(slots: Slots, maxLinks: nat, i: nat, id: string, passOk: bool, qos: bool, mhz: real)
    requires Sound(slots, maxLinks) && i < |slots|
    ensures Auth(slots, i, id, passOk, qos, mhz).1 == if passOk then AuthOk else AuthDenied
  {
    EvictionSuffices(slots, maxLinks, id, i);
  }

  lemma NameSound(slots: Slots, maxLinks: nat, i: nat, id: string, qos: bool, mhz: real)
    requires Sound(slots, maxLinks) && i < |slots| && slots[i].state != Free
    requires id != "" ==> forall k | 0 <= k < |slots| :: !Holds(slots, k, id, i)
    ensures Sound(slots[i := slots[i].(linkId := id, qos := qos, mhz := mhz)], maxLinks)
  {
    CountUpdate(slots, i, slots[i].(linkId := id, qos := qos, mhz := mhz));
    forall k | 0 <= k < |slots| && k != i && slots[k].state != Free && id != "" ensures slots[k].linkId != id {
      assert !Holds(slots, k, id, i);
    }
  }

  /** An authenticated link is the only one in use with its id. */
  lemma AuthSound(slots: Slots, maxLinks: nat, i: nat, id: string, passOk: bool, qos: bool, mhz: real)
    requires Sound(slots, maxLinks) && i < |slots| && slots[i].state != Free
    ensures var (slots1, result) := Auth(slots, i, id, passOk, qos, mhz);
            && Sound(slots1, maxLinks)
            && (result == AuthOk && id != "" ==> forall k | 0 <= k < |slots| :: Holds(slots1, k, id, |slots|) <==> k == i)
  {
    if passOk {
      var stale := FindById(slots, id, i, 0);
      var slots1 := if stale >= 0 then Evict(slots, stale) else slots;
      if stale >= 0 {
        EvictSound(slots, maxLinks, stale);
        EvictionSuffices(slots, maxLinks, id, i);
      }
      assert id != "" ==> forall k | 0 <= k < |slots1| :: !Holds(slots1, k, id, i);
      hide Sound;
      NameSound(slots1, maxLinks, i, id, qos, mhz);
      var slots2 := slots1[i := slots1[i].(linkId := id, qos := qos, mhz := mhz)];
      forall k | 0 <= k < |slots| && k != i && id != "" ensures !Holds(slots2, k, id, |slots|) {
        assert !Holds(slots1, k, id, i);
      }
    }
  }

  lemma ActivateSound(slots: Slots, maxLinks: nat, i: nat, now: int)
    requires Sound(slots, maxLinks) && i < |slots| && slots[i].state != Free
    ensures Sound(Activate(slots, i, now), maxLinks)
  {
    CountUpdate(slots, i, Activate(slots, i, now)[i]);
  }

  lemma {:induction false} NoteRfMarksOne(slots: Slots, id: string, now: int, from: nat)
    requires from <= |slots|
    ensures var slots1 := NoteRf(slots, id, now, from);
            slots1 == slots || exists k | from <= k < |slots| :: Carries(slots[k], id) && slots1 == slots[k := slots[k].(lastRf := now)]
    decreases |slots| - from
  {
    if id != "" && from < |slots| && !Carries(slots[from], id) {
      NoteRfMarksOne(slots, id, now, from + 1);
    }
  }

  lemma NoteRfSound(slots: Slots, maxLinks: nat, id: string, now: int)
    requires Sound(slots, maxLinks)
    ensures Sound(NoteRf(slots, id, now, 0), maxLinks)
  {
    NoteRfMarksOne(slots, id, now, 0);
    var slots1 := NoteRf(slots, id, now, 0);
    if slots1 != slots {
      var k :| 0 <= k < |slots| && Carries(slots[k], id) && slots1 == slots[k := slots[k].(lastRf := now)];
      CountUpdate(slots, k, slots[k].(lastRf := now));
    }
  }

  /** Radio activity of a link is noted on its own slot: the ids in use are unique. */
  lemma {:induction false} NoteRfOwn(slots: Slots, i: nat, now: int, from: nat)
    requires from <= i < |slots| && Carries(slots[i], slots[i].linkId) && slots[i].linkId != ""
    requires forall k | 0 <= k < |slots| && k != i && slots[k].state != Free :: slots[k].linkId != slots[i].linkId
    ensures NoteRf(slots, slots[i].linkId, now, from) == slots[i := slots[i].(lastRf := now)]
    decreases |slots| - from
  {
    if from < i {
      NoteRfOwn(slots, i, now, from + 1);
    }
  }

  datatype Op =
    | AcceptOp(client: nat, allocOk: bool, threadOk: bool)
    | AuthOp(slot: nat, id: string, passOk: bool, qos: bool, mhz: real)
    | ActivateOp(slot: nat, now: int)
    | NoteRfOp(id: string, now: int)
    | CloseFdOp(slot: nat)
    | CloseOp(slot: nat)

  /** A link thread authenticates and activates only the slot it was started for, which is still connecting. */
  function Step(slots: Slots, maxLinks: nat, op: Op): Slots {
    match op
    case AcceptOp(client, allocOk, threadOk) => Accept(slots, maxLinks, client, allocOk, threadOk).0
    case AuthOp(i, id, passOk, qos, mhz) =>
      if i < |slots| && slots[i].state == Connecting then Auth(slots, i, id, passOk, qos, mhz).0 else slots
    case ActivateOp(i, now) =>
      if i < |slots| && slots[i].state == Connecting then Activate(slots, i, now) else slots
    case NoteRfOp(id, now) => NoteRf(slots, id, now, 0)
    case CloseFdOp(i) => if i < |slots| then CloseFd(slots, i) else slots
    case CloseOp(i) => if i < |slots| then Close(slots, i) else slots
  }

  function Run(slots: Slots, maxLinks: nat, ops: seq<Op>): Slots {
    if ops == [] then slots else Step(Run(slots, maxLinks, ops[..|ops| - 1]), maxLinks, ops[|ops| - 1])
  }

  function AllFree(): (slots: Slots)
    ensures |slots| == MAX_LINKS && forall i | 0 <= i < MAX_LINKS :: slots[i] == FREE_SLOT
  {
    seq(MAX_LINKS, i => FREE_SLOT)
  }

  lemma {:induction false} NoneUsed(slots: Slots)
    requires forall i | 0 <= i < |slots| :: slots[i] == FREE_SLOT
    ensures CountUsed(slots) == 0
  {
    if slots != [] {
      NoneUsed(slots[..|slots| - 1]);
    }
  }

  lemma StepSound(slots: Slots, maxLinks: nat, op: Op)
    requires Sound(slots, maxLinks)
    ensures Sound(Step(slots, maxLinks, op), maxLinks)
  {
    match op
    case AcceptOp(client, allocOk, threadOk) => AcceptSound(slots, maxLinks, client, allocOk, threadOk);
    case AuthOp(i, id, passOk, qos, mhz) =>
      if i < |slots| && slots[i].state == Connecting {
        AuthSound(slots, maxLinks, i, id, passOk, qos, mhz);
      }
    case ActivateOp(i, now) =>
      if i < |slots| && slots[i].state == Connecting {
        ActivateSound(slots, maxLinks, i, now);
      }
    case NoteRfOp(id, now) => NoteRfSound(slots, maxLinks, id, now);
    case CloseFdOp(i) => if i < |slots| { CloseSound(slots, maxLinks, i); }
    case CloseOp(i) => if i < |slots| { CloseSound(slots, maxLinks, i); }
  }

  /**
   In every reachable state of a started hub the limit holds, free slots have
   no descriptor, no two links in use share an id; so a connection admitted by
   the count always finds a slot and an authentication never fails as duplicate.
   */
  lemma {:induction false} RunSound(wanted: nat, ops: seq<Op>)
    ensures var slots := Run(AllFree(), NormalMaxLinks(wanted), ops);
            && Sound(slots, NormalMaxLinks(wanted))
            && (forall client, allocOk, threadOk :: !Accept(slots, NormalMaxLinks(wanted), client, allocOk, threadOk).1.NoSlot?)
            && (forall i: nat, id, passOk, qos, mhz | i < |slots| :: !Auth(slots, i, id, passOk, qos, mhz).1.DuplicateId?)
  {
    var maxLinks := NormalMaxLinks(wanted);
    if ops == [] {
      NoneUsed(AllFree());
    } else {
      RunSound(wanted, ops[..|ops| - 1]);
      StepSound(Run(AllFree(), maxLinks, ops[..|ops| - 1]), maxLinks, ops[|ops| - 1]);
    }
    var slots := Run(AllFree(), maxLinks, ops);
    assert Sound(slots, maxLinks);
    hide Accept, Auth, Sound;
    forall client, allocOk, threadOk ensures !Accept(slots, maxLinks, client, allocOk, threadOk).1.NoSlot? {
      AcceptNeverStuck(slots, maxLinks, client, allocOk, threadOk);
    }
    forall i: nat, id, passOk, qos, mhz | i < |slots| ensures !Auth(slots, i, id, passOk, qos, mhz).1.DuplicateId? {
      AuthNeverDuplicate(slots, maxLinks, i, id, passOk, qos, mhz);
    }
  }
}
