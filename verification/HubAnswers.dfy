/** What each operation on the slot table answers and leaves behind, slot by slot. */
module HubAnswers {
  import opened HubSlots

  /** The slots in use. */
  function Used(slots: Slots): set<nat> {
    set i | 0 <= i < |slots| && slots[i].state != Free
  }

  lemma {:induction false} CountMeaning(slots: Slots)
    ensures CountUsed(slots) == |Used(slots)|
  {
    if slots == [] {
      assert Used(slots) == {};
    } else {
      var n := |slots| - 1;
      CountMeaning(slots[..n]);
      assert Used(slots) == Used(slots[..n]) + (if slots[n].state != Free then {n} else {});
    }
  }

  /** 1 to 16 links as configured, otherwise 8. */
  lemma LimitExactly(wanted: nat)
    ensures NormalMaxLinks(wanted) == if 1 <= wanted <= 16 then wanted else 8
  {
  }

  /** Only slot i differs. */
  predicate OnlyAt(before: Slots, after: Slots, i: nat) {
    |before| == |after| && forall k | 0 <= k < |before| && k != i :: after[k] == before[k]
  }

  lemma FirstFree(slots: Slots, maxLinks: nat)
    requires Sound(slots, maxLinks) && CountUsed(slots) < maxLinks
    ensures var i := FindFree(slots, 0);
            0 <= i < |slots| && slots[i].state == Free && forall k | 0 <= k < i :: slots[k].state != Free
  {
    FreeSlotExists(slots, maxLinks);
    FirstIs(slots, 0);
  }

  lemma {:induction false} FirstIs(slots: Slots, from: nat)
    requires from <= |slots| && FindFree(slots, from) >= 0
    ensures forall k | from <= k < FindFree(slots, from) :: !Usable(slots[k])
    decreases |slots| - from
  {
    if !Usable(slots[from]) {
      FirstIs(slots, from + 1);
    }
  }

  /**
   A connection is accepted if and only if fewer than max_links slots are in use
   and its balancer and thread can be created.  It then has the first free slot,
   connecting, with its descriptor; otherwise no slot in use changes and none comes into use.
   */
  lemma AcceptExactly(slots: Slots, maxLinks: nat, client: int, allocOk: bool, threadOk: bool)
    requires Sound(slots, maxLinks)
    ensures var (after, result) := Accept(slots, maxLinks, client, allocOk, threadOk);
            && (result.Accepted? <==> |Used(slots)| < maxLinks && allocOk && threadOk)
            && (result.MaxLinksReached? <==> |Used(slots)| >= maxLinks)
            && (result.AllocFailed? <==> |Used(slots)| < maxLinks && !allocOk)
            && (result.Accepted? ==>
                  && result.slot < |slots| && OnlyAt(slots, after, result.slot)
                  && slots[result.slot].state == Free && (forall k | 0 <= k < result.slot :: slots[k].state != Free)
                  && after[result.slot] == slots[result.slot].(fd := client, state := Connecting)
                  && Used(after) == Used(slots) + {result.slot})
            && (!result.Accepted? ==>
                  Used(after) == Used(slots) && |after| == |slots| && forall k | 0 <= k < |slots| && slots[k].state != Free :: after[k] == slots[k])
  {
    CountMeaning(slots);
    if CountUsed(slots) < maxLinks {
      FirstFree(slots, maxLinks);
    }
  }

  /** So in every reachable state of a hub below its limit a connection gets in. */
  lemma HubAccepts(wanted: nat, ops: seq<Op>, client: int)
    ensures var slots := Run(AllFree(), NormalMaxLinks(wanted), ops);
            Accept(slots, NormalMaxLinks(wanted), client, true, true).1.Accepted? <==> |Used(slots)| < NormalMaxLinks(wanted)
  {
    RunSound(wanted, ops);
    hide Accept, Run, Sound;
    AcceptExactly(Run(AllFree(), NormalMaxLinks(wanted), ops), NormalMaxLinks(wanted), client, true, true);
  }

  /** An open descriptor becomes -1. */
  function Disconnected(fd: int): int {
    if fd < 0 then fd else -1
  }

  /**
   Authentication succeeds exactly with the right password.  The slot then has
   the id and profile; whoever else held the id has lost it and its descriptor; nothing else changes.
   */
  lemma AuthExactly(slots: Slots, maxLinks: nat, i: nat, id: string, passOk: bool, qos: bool, mhz: real)
    requires Sound(slots, maxLinks) && i < |slots|
    ensures var (after, result) := Auth(slots, i, id, passOk, qos, mhz);
            && result == (if passOk then AuthOk else AuthDenied) && |after| == |slots|
            && (!passOk ==> after == slots)
            && (passOk ==>
                  && after[i] == slots[i].(linkId := id, qos := qos, mhz := mhz)
                  && forall k | 0 <= k < |slots| && k != i ::
                       if id != "" && slots[k].state != Free && slots[k].linkId == id
                       then after[k] == slots[k].(fd := Disconnected(slots[k].fd), linkId := "")
                       else after[k] == slots[k])
  {
    AuthNeverDuplicate(slots, maxLinks, i, id, passOk, qos, mhz);
    var stale := FindById(slots, id, i, 0);
    assert forall k | 0 <= k < |slots| && k != i && id != "" && slots[k].state != Free && slots[k].linkId == id :: Holds(slots, k, id, i);
  }

  /** An authenticated slot becomes active and counts as just heard; a closed one is free, without descriptor, id or profile. */
  lemma ActivateAndClose(slots: Slots, i: nat, now: int)
    requires i < |slots|
    ensures OnlyAt(slots, Activate(slots, i, now), i) && Activate(slots, i, now)[i] == slots[i].(state := Active, lastRf := now)
    ensures var after := Close(slots, i);
            OnlyAt(slots, after, i) && after[i] == Slot(Free, Disconnected(slots[i].fd), "", false, 0.0, 0)
    ensures var after := CloseFd(slots, i);
            OnlyAt(slots, after, i) && after[i] == slots[i].(fd := Disconnected(slots[i].fd))
  {
  }

  /** Radio activity is noted on the active, connected slot with that id and on no other. */
  lemma NoteRfExactly(slots: Slots, maxLinks: nat, id: string, now: int)
    requires Sound(slots, maxLinks)
    ensures var after := NoteRf(slots, id, now, 0);
            |after| == |slots| && forall k | 0 <= k < |slots| ::
              after[k] == if id != "" && slots[k].state == Active && slots[k].fd >= 0 && slots[k].linkId == id
                          then slots[k].(lastRf := now) else slots[k]
  {
    NoteRfMarksOne(slots, id, now, 0);
    if i: nat :| i < |slots| && id != "" && slots[i].state == Active && slots[i].fd >= 0 && slots[i].linkId == id {
      NoteRfOwn(slots, i, now, 0);
    }
  }

  // ---------- the life of a link ----------

  /** A link connects, authenticates, becomes active, is heard, loses its descriptor and is closed. */
  function LifeOf(client: nat, id: string): seq<Op> {
    [AcceptOp(client, true, true), AuthOp(0, id, true, true, 144.8), ActivateOp(0, 100), NoteRfOp(id, 200), CloseFdOp(0), CloseOp(0)]
  }

  lemma RunMore(slots: Slots, maxLinks: nat, ops: seq<Op>, n: nat)
    requires n < |ops|
    ensures Run(slots, maxLinks, ops[..n + 1]) == Step(Run(slots, maxLinks, ops[..n]), maxLinks, ops[n])
    ensures Run(slots, maxLinks, ops[..0]) == slots
  {
    hide Step;
    assert ops[..n + 1][..n] == ops[..n];
  }

  /** What it leaves in the first slot, step by step; in the end the table is free again. */
  lemma LinkLives(client: nat, id: string)
    requires id != ""
    ensures var ops := LifeOf(client, id);
            && Run(AllFree(), 8, ops[..1]) == AllFree()[0 := Slot(Connecting, client, "", false, 0.0, 0)]
            && Run(AllFree(), 8, ops[..2]) == AllFree()[0 := Slot(Connecting, client, id, true, 144.8, 0)]
            && Run(AllFree(), 8, ops[..3]) == AllFree()[0 := Slot(Active, client, id, true, 144.8, 100)]
            && Run(AllFree(), 8, ops[..4]) == AllFree()[0 := Slot(Active, client, id, true, 144.8, 200)]
            && Run(AllFree(), 8, ops[..5]) == AllFree()[0 := Slot(Active, -1, id, true, 144.8, 200)]
            && Run(AllFree(), 8, ops[..6]) == AllFree()
  {
    hide *;
    var ops := LifeOf(client, id);
    LifeOps(client, id);
    RunMore(AllFree(), 8, ops, 0);
    RunMore(AllFree(), 8, ops, 1);
    RunMore(AllFree(), 8, ops, 2);
    RunMore(AllFree(), 8, ops, 3);
    RunMore(AllFree(), 8, ops, 4);
    RunMore(AllFree(), 8, ops, 5);
    FirstSteps(client, id);
    LaterSteps(client, id);
  }

  lemma LifeOps(client: nat, id: string)
    ensures var ops := LifeOf(client, id);
            && |ops| == 6 && ops[0] == AcceptOp(client, true, true) && ops[1] == AuthOp(0, id, true, true, 144.8)
            && ops[2] == ActivateOp(0, 100) && ops[3] == NoteRfOp(id, 200) && ops[4] == CloseFdOp(0) && ops[5] == CloseOp(0)
  {
  }

  lemma FirstSteps(client: nat, id: string)
    requires id != ""
    ensures Step(AllFree(), 8, AcceptOp(client, true, true)) == AllFree()[0 := Slot(Connecting, client, "", false, 0.0, 0)]
    ensures Step(AllFree()[0 := Slot(Connecting, client, "", false, 0.0, 0)], 8, AuthOp(0, id, true, true, 144.8)) ==
            AllFree()[0 := Slot(Connecting, client, id, true, 144.8, 0)]
  {
    NoneUsed(AllFree());
    var one := AllFree()[0 := Slot(Connecting, client, "", false, 0.0, 0)];
    assert FindById(one, id, 0, 0) == -1;
  }

  lemma LaterSteps(client: nat, id: string)
    requires id != ""
    ensures Step(AllFree()[0 := Slot(Connecting, client, id, true, 144.8, 0)], 8, ActivateOp(0, 100)) ==
            AllFree()[0 := Slot(Active, client, id, true, 144.8, 100)]
    ensures Step(AllFree()[0 := Slot(Active, client, id, true, 144.8, 100)], 8, NoteRfOp(id, 200)) ==
            AllFree()[0 := Slot(Active, client, id, true, 144.8, 200)]
    ensures Step(AllFree()[0 := Slot(Active, client, id, true, 144.8, 200)], 8, CloseFdOp(0)) ==
            AllFree()[0 := Slot(Active, -1, id, true, 144.8, 200)]
    ensures Step(AllFree()[0 := Slot(Active, -1, id, true, 144.8, 200)], 8, CloseOp(0)) == AllFree()
  {
  }
}
