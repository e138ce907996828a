/** The hub's slot table in place: an array of slots, searched and updated by index. */
module HubTable {
  import S = HubSlots
  import L = BroadcastLinks
  import Beacon

  class Hub {
    const slots: array<S.Slot>
    var maxLinks: nat

    ghost predicate Valid()
      reads this
    {
      slots.Length == S.MAX_LINKS && 1 <= maxLinks <= S.MAX_LINKS
    }

    constructor (wanted: nat)
      ensures Valid() && fresh(slots) && maxLinks == S.NormalMaxLinks(wanted)
      ensures slots[..] == S.AllFree()
    {
      slots := new S.Slot[S.MAX_LINKS](_ => S.FREE_SLOT);
      maxLinks := S.NormalMaxLinks(wanted);
      new;
      assert slots[..] == S.AllFree();
    }

    method CountUsedSlots() returns (count: nat)
      requires Valid()
      ensures count == S.CountUsed(slots[..])
    {
      count := 0;
      var i := 0;
      while i < slots.Length
        invariant 0 <= i <= slots.Length
        invariant count == S.CountUsed(slots[..i])
      {
        assert slots[..i + 1][..i] == slots[..i];
        if slots[i].state != S.Free {
          count := count + 1;
        }
        i := i + 1;
      }
      assert slots[..i] == slots[..];
    }

    method FindFreeSlot() returns (found: int)
      requires Valid()
      ensures found == S.FindFree(slots[..], 0)
    {
      var i := 0;
      while i < slots.Length
        invariant 0 <= i <= slots.Length
        invariant S.FindFree(slots[..], 0) == S.FindFree(slots[..], i)
      {
        if slots[i].state == S.Free && slots[i].fd < 0 {
          return i;
        }
        i := i + 1;
      }
      return -1;
    }

    method FindActiveSlotById(id: string, except: nat) returns (found: int)
      requires Valid()
      ensures found == S.FindById(slots[..], id, except, 0)
    {
      if id == "" {
        return -1;
      }
      var i := 0;
      while i < slots.Length
        invariant 0 <= i <= slots.Length
        invariant S.FindById(slots[..], id, except, 0) == S.FindById(slots[..], id, except, i)
      {
        var slot := slots[i];
        if i != except && slot.state != S.Free && slot.linkId != "" && slot.linkId == id {
          return i;
        }
        i := i + 1;
      }
      return -1;
    }

    method CloseSlot(i: nat)
      requires Valid() && i < slots.Length
      modifies slots
      ensures slots[..] == S.Close(old(slots[..]), i)
    {
      if slots[i].fd >= 0 {
        slots[i] := slots[i].(fd := -1);
      }
      slots[i] := slots[i].(qos := false, mhz := 0.0, linkId := "", lastRf := 0, state := S.Free);
      assert slots[..] == S.Close(old(slots[..]), i);
    }

    method Accept(client: int, allocOk: bool, threadOk: bool) returns (result: S.AcceptResult)
      requires Valid()
      modifies slots
      ensures (slots[..], result) == S.Accept(old(slots[..]), maxLinks, client, allocOk, threadOk)
    {
      ghost var was := slots[..];
      var used := CountUsedSlots();
      if used >= maxLinks {
        return S.MaxLinksReached;
      }
      var i := FindFreeSlot();
      if i < 0 {
        return S.NoSlot;
      }
      slots[i] := slots[i].(fd := client, state := S.Connecting);
      if !allocOk {
        slots[i] := slots[i].(fd := -1, state := S.Free);
        assert slots[..] == was[i := was[i].(fd := -1, state := S.Free)];
        return S.AllocFailed(i);
      }
      assert slots[..] == was[i := was[i].(fd := client, state := S.Connecting)];
      if !threadOk {
        CloseSlot(i);
        return S.ThreadFailed(i);
      }
      result := S.Accepted(i);
    }

    method EvictStaleLink(i: nat)
      requires Valid() && i < slots.Length
      modifies slots
      ensures slots[..] == S.Evict(old(slots[..]), i)
    {
      if slots[i].fd >= 0 {
        slots[i] := slots[i].(fd := -1);
      }
      slots[i] := slots[i].(linkId := "");
      assert slots[..] == S.Evict(old(slots[..]), i);
    }

    /** The auth callback, as one step: evict a stale link of this id, then take the id. */
    method Authenticate(i: nat, id: string, passOk: bool, qos: bool, mhz: real) returns (result: S.AuthResult)
      requires Valid() && i < slots.Length
      modifies slots
      ensures (slots[..], result) == S.Auth(old(slots[..]), i, id, passOk, qos, mhz)
    {
      if !passOk {
        return S.AuthDenied;
      }
      var stale := FindActiveSlotById(id, i);
      if stale >= 0 {
        EvictStaleLink(stale);
        var again := FindActiveSlotById(id, i);
        if again >= 0 {
          return S.DuplicateId;
        }
      }
      ghost var mid := slots[..];
      slots[i] := slots[i].(linkId := id, qos := qos, mhz := mhz);
      assert slots[..] == mid[i := mid[i].(linkId := id, qos := qos, mhz := mhz)];
      result := S.AuthOk;
    }

    method Activate(i: nat, now: int)
      requires Valid() && i < slots.Length
      modifies slots
      ensures slots[..] == S.Activate(old(slots[..]), i, now)
    {
      slots[i] := slots[i].(state := S.Active, lastRf := now);
      assert slots[..] == S.Activate(old(slots[..]), i, now);
    }

    method NoteRfActivity(id: string, now: int)
      requires Valid()
      modifies slots
      ensures slots[..] == S.NoteRf(old(slots[..]), id, now, 0)
    {
      if id == "" {
        return;
      }
      ghost var was := slots[..];
      var i := 0;
      while i < slots.Length
        invariant 0 <= i <= slots.Length && slots[..] == was
        invariant S.NoteRf(was, id, now, 0) == S.NoteRf(was, id, now, i)
      {
        var slot := slots[i];
        if slot.state == S.Active && slot.fd >= 0 && slot.linkId == id {
          slots[i] := slot.(lastRf := now);
          assert slots[..] == was[i := slot.(lastRf := now)];
          return;
        }
        i := i + 1;
      }
    }

    /** The links that can carry a beacon now, arranged for a cycle. */
    method SnapshotLinks() returns (links: array<L.Link>)
      requires Valid()
      ensures fresh(links) && links[..] == L.Snapshot(slots[..])
    {
      var found: seq<L.Link> := [];
      var i := 0;
      while i < slots.Length
        invariant 0 <= i <= slots.Length
        invariant found == L.Qualifying(slots[..], i)
      {
        var slot := slots[i];
        if slot.state == S.Active && slot.fd >= 0 && slot.qos {
          found := found + [L.Link(slot.mhz, i, slot.linkId)];
        }
        i := i + 1;
      }
      links := new L.Link[|found|](k requires 0 <= k < |found| => found[k]);
      assert links[..] == found;
      L.SortLinks(links);
    }

    method AnyBroadcastQos() returns (any: bool)
      requires Valid()
      ensures any == Beacon.AnyQos(slots[..])
    {
      any := false;
      var i := 0;
      while i < slots.Length && !any
        invariant 0 <= i <= slots.Length
        invariant any ==> Beacon.AnyQos(slots[..])
        invariant !any ==> forall k | 0 <= k < i :: !(slots[k].state == S.Active && slots[k].qos)
      {
        if slots[i].state == S.Active && slots[i].qos {
          any := true;
          assert slots[..][i].state == S.Active && slots[..][i].qos;
        }
        i := i + 1;
      }
    }
  }
}
