/**
 The bandwidth policy in place: the service visits its sessions, collects the
 eligible ones, sorts them by exchange, and flags the victims.
 */
module PolicyService {
  import B = Balance
  import opened BandwidthPolicy
  import SacrificeOrder

  class Session {
    const id: nat
    const kind: Kind
    const connectedAt: int
    var loggedIn: bool
    var paused: bool
    var leaving: bool

    constructor (id: nat, kind: Kind, connectedAt: int)
      ensures this.id == id && this.kind == kind && this.connectedAt == connectedAt
      ensures !loggedIn && !paused && !leaving
    {
      this.id, this.kind, this.connectedAt := id, kind, connectedAt;
      loggedIn, paused, leaving := false, false, false;
    }

    function View(): User
      reads this
    {
      User(kind, connectedAt, loggedIn, paused, leaving)
    }

    method SetBandwidthPaused(paused: bool)
      modifies this`paused
      ensures View() == old(View()).(paused := paused)
    {
      this.paused := paused;
    }

    method DisconnectBandwidth()
      modifies this
      ensures View() == if old(loggedIn) then old(View()).(paused := false, leaving := true) else old(View())
    {
      if !loggedIn {
        return;
      }
      paused := false;
      leaving := true;
    }
  }

  /** The order of sacrifice, on session objects. */
  predicate Before(a: Session, b: Session) {
    || Priority(a.kind) < Priority(b.kind)
    || (Priority(a.kind) == Priority(b.kind) &&
        (a.connectedAt > b.connectedAt || (a.connectedAt == b.connectedAt && a.id > b.id)))
  }

  ghost predicate DistinctIds(ss: seq<Session>) {
    forall i, j | 0 <= i < j < |ss| :: ss[i].id != ss[j].id
  }

  ghost predicate SortedFirst(ss: seq<Session>) {
    forall i, j | 0 <= i < j < |ss| :: Before(ss[i], ss[j])
  }

  /** Position i has been compared with all positions before j, and earlier positions with all others. */
  ghost predicate ComparedUpTo(ss: seq<Session>, i: nat, j: nat) {
    forall p, q | 0 <= p < q < |ss| && (p < i || (p == i && q < j)) :: Before(ss[p], ss[q])
  }

  ghost function Exchanged(ss: seq<Session>, i: nat, j: nat): seq<Session>
    requires i < |ss| && j < |ss|
  {
    if Before(ss[j], ss[i]) then ss[i := ss[j]][j := ss[i]] else ss
  }

  lemma ExchangeStep(ss: seq<Session>, i: nat, j: nat)
    requires i < j < |ss| && DistinctIds(ss) && ComparedUpTo(ss, i, j)
    ensures var t := Exchanged(ss, i, j);
            DistinctIds(t) && ComparedUpTo(t, i, j + 1) && multiset(t) == multiset(ss)
  {
    assert ss[i].id != ss[j].id;
  }

  /** Radio or TCP, the only kinds that the policy collects. */
  predicate Ranked(s: Session) {
    s.kind == PacketRadio || s.kind == Telnet
  }

  /** In sorted order radio sessions stand before TCP sessions, and of one kind the newer, then the higher id, first. */
  lemma SortedIsSooner(ss: seq<Session>)
    requires SortedFirst(ss)
    ensures forall i, j | 0 <= i < j < |ss| && Ranked(ss[i]) && Ranked(ss[j]) ::
              SacrificeOrder.Sooner(ss[i].View(), ss[i].id, ss[j].View(), ss[j].id)
  {
    forall i, j | 0 <= i < j < |ss| && Ranked(ss[i]) && Ranked(ss[j])
      ensures SacrificeOrder.Sooner(ss[i].View(), ss[i].id, ss[j].View(), ss[j].id)
    {
      assert Before(ss[i], ss[j]);
    }
  }

  /** The exchange sort: strict order of sacrifice, nothing lost or added. */
  method SortVictimsFirst(a: array<Session>)
    requires DistinctIds(a[..])
    modifies a
    ensures SortedFirst(a[..]) && DistinctIds(a[..])
    ensures multiset(a[..]) == multiset(old(a[..]))
    ensures forall i, j | 0 <= i < j < a.Length && Ranked(a[i]) && Ranked(a[j]) ::
              SacrificeOrder.Sooner(a[i].View(), a[i].id, a[j].View(), a[j].id)
  {
    hide DistinctIds, Before, SacrificeOrder.Sooner;
    var n := a.Length;
    var i := 0;
    while i + 1 < n
      invariant 0 <= i && (n > 0 ==> i < n)
      invariant DistinctIds(a[..]) && ComparedUpTo(a[..], i, 0)
      invariant multiset(a[..]) == multiset(old(a[..]))
    {
      var j := i + 1;
      while j < n
        invariant i < j <= n
        invariant DistinctIds(a[..]) && ComparedUpTo(a[..], i, j)
        invariant multiset(a[..]) == multiset(old(a[..]))
      {
        ghost var was := a[..];
        ExchangeStep(was, i, j);
        if Before(a[j], a[i]) {
          a[i], a[j] := a[j], a[i];
        }
        assert a[..] == Exchanged(was, i, j);
        j := j + 1;
      }
      i := i + 1;
    }
    SortedIsSooner(a[..]);
  }

  // ---------- sessions and the users they stand for ----------

  function IdsOf(ss: seq<Session>): (ids: seq<nat>)
    ensures |ids| == |ss| && forall i | 0 <= i < |ss| :: ids[i] == ss[i].id
  {
    seq(|ss|, i requires 0 <= i < |ss| => ss[i].id)
  }

  ghost function IdSet(ss: seq<Session>): (ids: set<nat>)
    ensures forall s | s in ss :: s.id in ids
    ensures forall i | i in ids :: exists s | s in ss :: s.id == i
  {
    set s | s in ss :: s.id
  }

  /** The users agree with the sessions on everything that orders them. */
  ghost predicate Describes(u: Users, ss: seq<Session>) {
    forall s | s in ss :: s.id in u && u[s.id].kind == s.kind && u[s.id].connectedAt == s.connectedAt
  }

  /** The first listed session of a set of users is the set's first in order of sacrifice. */
  lemma FirstListedIsLeast(u: Users, order: seq<Session>, k: nat, ids: set<nat>)
    requires Describes(u, order) && SortedFirst(order) && k < |order|
    requires ids <= IdSet(order) && order[k].id in ids
    requires forall j | 0 <= j < k :: order[j].id !in ids
    ensures ids <= u.Keys && order[k].id == Least(u, ids)
  {
    forall i | i in ids && i != order[k].id
      ensures i in u && Precedes(u, order[k].id, i)
    {
      var s :| s in order && s.id == i;
      var j :| 0 <= j < |order| && order[j] == s;
      assert j > k;
      assert Before(order[k], order[j]);
    }
    assert order[k] in order;
    LeastUnique(u, ids, order[k].id);
  }

  lemma LastListedIsGreatest(u: Users, order: seq<Session>)
    requires Describes(u, order) && SortedFirst(order) && order != []
    ensures IdSet(order) <= u.Keys && order[|order| - 1].id in IdSet(order)
    ensures order[|order| - 1].id == Greatest(u, IdSet(order))
  {
    var k := |order| - 1;
    forall i | i in IdSet(order) && i != order[k].id
      ensures i in u && Precedes(u, i, order[k].id)
    {
      var s :| s in order && s.id == i;
      var j :| 0 <= j < |order| && order[j] == s;
      assert j < k;
      assert Before(order[j], order[k]);
    }
    assert order[k] in order;
    GreatestUnique(u, IdSet(order), order[k].id);
  }

  lemma {:induction false} IdSetSize(ss: seq<Session>)
    requires DistinctIds(ss)
    ensures |IdSet(ss)| == |ss|
  {
    if ss == [] {
      assert IdSet(ss) == {};
    } else {
      var n := |ss| - 1;
      IdSetSize(ss[..n]);
      assert ss == ss[..n] + [ss[n]];
      assert IdSet(ss) == IdSet(ss[..n]) + {ss[n].id};
      assert forall s | s in ss[..n] :: s.id != ss[n].id;
    }
  }

  ghost predicate ListedIn(c: seq<Session>, ss: seq<Session>) {
    forall s | s in c :: s in ss
  }

  /** The sessions before i are visited: c was collected from them and `room` is left for the others. */
  ghost predicate VisitedTo(u: Users, ss: seq<Session>, i: nat, c: seq<Session>, room: nat) {
    && i <= |ss| && DistinctIds(c) && ListedIn(c, ss[..i])
    && IdsOf(c) + Collect(u, IdsOf(ss)[i..], room) == Collect(u, IdsOf(ss), USER_MAX)
  }

  lemma VisitStart(u: Users, ss: seq<Session>)
    ensures VisitedTo(u, ss, 0, [], USER_MAX)
  {
    assert IdsOf(ss)[0..] == IdsOf(ss) && IdsOf([]) == [];
  }

  lemma VisitOne(u: Users, ss: seq<Session>, i: nat, c: seq<Session>, room: nat)
    requires i < |ss| && DistinctIds(ss) && VisitedTo(u, ss, i, c, room)
    ensures if ss[i].id in u && Eligible(u[ss[i].id]) && room > 0 then VisitedTo(u, ss, i + 1, c + [ss[i]], room - 1)
            else VisitedTo(u, ss, i + 1, c, room)
  {
    var ids := IdsOf(ss);
    assert ids[i..][1..] == ids[i + 1..];
    assert ss[..i + 1] == ss[..i] + [ss[i]];
    assert IdsOf(c + [ss[i]]) == IdsOf(c) + [ss[i].id];
    forall k | 0 <= k < |c| ensures c[k].id != ss[i].id {
      assert c[k] in ss[..i];
    }
  }

  lemma VisitedAll(u: Users, ss: seq<Session>, c: seq<Session>, room: nat)
    requires VisitedTo(u, ss, |ss|, c, room)
    ensures DistinctIds(c) && ListedIn(c, ss) && IdsOf(c) == Collect(u, IdsOf(ss), USER_MAX)
  {
    assert ss[..|ss|] == ss && IdsOf(ss)[|ss|..] == [];
  }

  lemma SameMembers(c: seq<Session>, order: seq<Session>)
    requires multiset(c) == multiset(order)
    ensures IdSet(order) == IdSet(c) && forall s :: s in order <==> s in c
  {
    assert forall s :: s in order <==> s in multiset(order);
    assert forall s :: s in c <==> s in multiset(c);
  }

  lemma DisconnectMore(u: Users, order: seq<Session>, i: nat)
    requires i < |order|
    ensures Disconnect(u, IdSet(order[..0])) == u
    ensures Disconnect(Disconnect(u, IdSet(order[..i])), {order[i].id}) == Disconnect(u, IdSet(order[..i + 1]))
  {
    assert order[..i + 1] == order[..i] + [order[i]];
    assert IdSet(order[..i + 1]) == IdSet(order[..i]) + {order[i].id};
  }

  lemma ResumeMore(u: Users, order: seq<Session>, i: nat)
    requires i < |order|
    ensures SetPaused(u, IdSet(order[..0]), false) == u
    ensures SetPaused(SetPaused(u, IdSet(order[..i]), false), {order[i].id}, false) == SetPaused(u, IdSet(order[..i + 1]), false)
  {
    assert order[..i + 1] == order[..i] + [order[i]];
    assert IdSet(order[..i + 1]) == IdSet(order[..i]) + {order[i].id};
  }

  lemma CancelMeaning(u: Users, c: set<nat>, keep: nat)
    requires c <= u.Keys && c != {} && keep == Greatest(u, c)
    ensures ApplyTo(u, c, B.Cancel) == (Disconnect(u, c - {keep}), |c| - 1)
  {
  }

  lemma SetPausedNone(u: Users, order: seq<Session>)
    ensures SetPaused(u, IdSet(order[..0]), false) == u
  {
  }

  lemma AllButLast(order: seq<Session>)
    requires DistinctIds(order) && order != []
    ensures IdSet(order[..|order| - 1]) == IdSet(order) - {order[|order| - 1].id}
  {
    var n := |order| - 1;
    assert order == order[..n] + [order[n]];
    forall s | s in order[..n] ensures s.id != order[n].id {
    }
  }

  class Service {
    var sessions: seq<Session>

    ghost predicate Valid()
      reads this
    {
      DistinctIds(sessions)
    }

    constructor ()
      ensures Valid() && sessions == []
    {
      sessions := [];
    }

    ghost function Info(): (u: Users)
      requires Valid()
      reads this, sessions
    {
      map s | s in sessions :: s.id := s.View()
    }

    ghost function View(): Roster
      requires Valid()
      reads this, sessions
    {
      Roster(Info(), IdsOf(sessions))
    }

    /** Two user maps of the same sessions are equal when they agree on each session. */
    lemma InfoIs(u: Users)
      requires Valid()
      requires u.Keys == IdSet(sessions)
      requires forall s | s in sessions :: u[s.id] == s.View()
      ensures Info() == u
    {
    }

    method CollectUsers() returns (c: seq<Session>)
      requires Valid()
      ensures IdsOf(c) == Collect(Info(), IdsOf(sessions), USER_MAX)
      ensures ListedIn(c, sessions) && DistinctIds(c)
    {
      hide *;
      var room: nat := USER_MAX;
      c := [];
      ghost var u := Info();
      VisitStart(u, sessions);
      var i := 0;
      while i < |sessions|
        invariant 0 <= i <= |sessions|
        invariant VisitedTo(u, sessions, i, c, room)
      {
        var s := sessions[i];
        EligibleSession(i);
        AllDistinct();
        VisitOne(u, sessions, i, c, room);
        if Priority(s.kind) >= 0 && s.loggedIn && room > 0 {
          c := c + [s];
          room := room - 1;
        }
        i := i + 1;
      }
      VisitedAll(u, sessions, c, room);
    }

    lemma AllDistinct()
      requires Valid()
      ensures DistinctIds(sessions)
    {
    }

    lemma EligibleSession(i: nat)
      requires Valid() && i < |sessions|
      ensures var s := sessions[i];
              s.id in Info() && IdsOf(sessions)[i] == s.id && Eligible(Info()[s.id]) == (Priority(s.kind) >= 0 && s.loggedIn)
    {
      assert sessions[i] in sessions;
    }

    /** The number of users subject to the policy. */
    method UserCount() returns (n: nat)
      requires Valid()
      ensures n == |Collected(View())|
    {
      var c := CollectUsers();
      IdSetSize(c);
      CollectedIds(c);
      n := |c|;
    }

    lemma CollectedIds(c: seq<Session>)
      requires Valid() && IdsOf(c) == Collect(Info(), IdsOf(sessions), USER_MAX)
      ensures IdSet(c) == Collected(View())
    {
      forall i | i in Collected(View())
        ensures i in IdSet(c)
      {
        assert i in IdsOf(c);
        var k :| 0 <= k < |c| && IdsOf(c)[k] == i;
        assert c[k] in c;
      }
      forall i | i in IdSet(c)
        ensures i in Collected(View())
      {
        var s :| s in c && s.id == i;
        var k :| 0 <= k < |c| && c[k] == s;
        assert IdsOf(c)[k] == i;
      }
    }

    /** The index of the first listed session whose paused flag is `paused`, or the length. */
    method FirstWith(entries: array<Session>, paused: bool) returns (k: nat)
      ensures k <= entries.Length && (k < entries.Length ==> entries[k].paused == paused)
      ensures forall j | 0 <= j < k :: entries[j].paused != paused
    {
      k := 0;
      while k < entries.Length && entries[k].paused != paused
        invariant k <= entries.Length
        invariant forall j | 0 <= j < k :: entries[j].paused != paused
      {
        k := k + 1;
      }
    }

    /** Sorted sessions of this service, standing for the collected users c. */
    ghost predicate Lists(order: seq<Session>, c: set<nat>)
      reads this
    {
      && SortedFirst(order) && DistinctIds(order) && ListedIn(order, sessions) && IdSet(order) == c
    }

    lemma ListsDescribes(order: seq<Session>, c: set<nat>)
      requires Valid() && Lists(order, c)
      ensures c <= Info().Keys && Describes(Info(), order)
      ensures forall s | s in order :: Info()[s.id] == s.View()
    {
      forall s | s in order ensures s.id in Info() && Info()[s.id] == s.View() {
        assert s in sessions;
      }
    }

    method Freeze(s: Session, paused: bool)
      requires Valid() && s in sessions
      modifies s
      ensures Valid() && Info() == SetPaused(old(Info()), {s.id}, paused)
    {
      ghost var u := Info();
      s.SetBandwidthPaused(paused);
      InfoIs(SetPaused(u, {s.id}, paused));
    }

    method Drop(s: Session)
      requires Valid() && s in sessions
      modifies s
      ensures Valid() && Info() == Disconnect(old(Info()), {s.id})
    {
      ghost var u := Info();
      s.DisconnectBandwidth();
      InfoIs(Disconnect(u, {s.id}));
    }

    /** The unpaused users start at the first unpaused session of the list. */
    lemma UnpausedFrom(order: seq<Session>, c: set<nat>, k: nat)
      requires Valid() && Lists(order, c) && k <= |order|
      requires forall j | 0 <= j < k :: order[j].paused
      requires k < |order| ==> !order[k].paused
      ensures c <= Info().Keys
      ensures k == |order| ==> c - PausedIn(Info(), c) == {}
      ensures k < |order| ==> order[k].id in c - PausedIn(Info(), c)
      ensures forall j | 0 <= j < k :: order[j].id !in c - PausedIn(Info(), c)
    {
      ListsDescribes(order, c);
      forall j | 0 <= j < k ensures order[j].id in PausedIn(Info(), c) {
        assert order[j] in order;
      }
      if k < |order| {
        assert order[k] in order;
      } else {
        forall i | i in c ensures i in PausedIn(Info(), c) {
          var s :| s in order && s.id == i;
        }
      }
    }

    lemma PausedFrom(order: seq<Session>, c: set<nat>, k: nat)
      requires Valid() && Lists(order, c) && k <= |order|
      requires forall j | 0 <= j < k :: !order[j].paused
      requires k < |order| ==> order[k].paused
      ensures c <= Info().Keys
      ensures k == |order| ==> PausedIn(Info(), c) == {}
      ensures k < |order| ==> order[k].id in PausedIn(Info(), c)
      ensures forall j | 0 <= j < k :: order[j].id !in PausedIn(Info(), c)
    {
      ListsDescribes(order, c);
      forall j | 0 <= j < k ensures order[j].id !in PausedIn(Info(), c) {
        assert order[j] in order;
      }
      if k < |order| {
        assert order[k] in order;
      } else {
        forall i | i in c ensures i !in PausedIn(Info(), c) {
          var s :| s in order && s.id == i;
        }
      }
    }

    lemma PausePick(order: seq<Session>, c: set<nat>, k: nat)
      requires Valid() && Lists(order, c) && c != {} && k <= |order|
      requires forall j | 0 <= j < k :: order[j].paused
      requires k < |order| ==> !order[k].paused
      ensures c <= Info().Keys && (k < |order| ==> order[k] in sessions)
      ensures ApplyTo(Info(), c, B.Pause) == if k == |order| then (Info(), 0) else (SetPaused(Info(), {order[k].id}, true), 1)
    {
      ListsDescribes(order, c);
      UnpausedFrom(order, c, k);
      if k < |order| {
        FirstListedIsLeast(Info(), order, k, c - PausedIn(Info(), c));
      }
    }

    lemma BreakPicks(order: seq<Session>, c: set<nat>, k: nat)
      requires Valid() && Lists(order, c) && c != {} && k <= |order|
      requires forall j | 0 <= j < k :: !order[j].paused
      requires k < |order| ==> order[k].paused
      ensures c <= Info().Keys && 0 < |order|
      ensures var x := if k < |order| then order[k] else order[0];
              x in sessions && ApplyTo(Info(), c, B.Break) == (Disconnect(Info(), {x.id}), 1)
    {
      ListsDescribes(order, c);
      PausedFrom(order, c, k);
      assert order != [];
      if k < |order| {
        FirstListedIsLeast(Info(), order, k, PausedIn(Info(), c));
      } else {
        assert order[0] in order;
        FirstListedIsLeast(Info(), order, 0, c);
      }
    }

    lemma CancelPicks(order: seq<Session>, c: set<nat>)
      requires Valid() && Lists(order, c) && c != {}
      ensures c <= Info().Keys && 0 < |order| && forall s | s in order :: s in sessions
      ensures ApplyTo(Info(), c, B.Cancel) == (Disconnect(Info(), IdSet(order[..|order| - 1])), |order| - 1)
    {
      ListsDescribes(order, c);
      assert order != [];
      LastListedIsGreatest(Info(), order);
      IdSetSize(order);
      AllButLast(order);
      var u := Info();
      var keep := order[|order| - 1].id;
      hide *;
      CancelMeaning(u, c, keep);
    }

    lemma ResumePicks(order: seq<Session>, c: set<nat>)
      requires Valid() && Lists(order, c) && c != {}
      ensures c <= Info().Keys && forall s | s in order :: s in sessions
      ensures ApplyTo(Info(), c, B.Resume) == (SetPaused(Info(), IdSet(order), false), |order|)
    {
      ListsDescribes(order, c);
      IdSetSize(order);
    }

    method ApplyPause(entries: array<Session>, ghost c: set<nat>) returns (affected: nat)
      requires Valid() && Lists(entries[..], c) && c != {}
      modifies sessions
      ensures Valid() && old(c <= Info().Keys)
      ensures (Info(), affected) == ApplyTo(old(Info()), c, B.Pause)
    {
      hide *;
      var k := FirstWith(entries, false);
      PausePick(entries[..], c, k);
      if k == entries.Length {
        return 0;
      }
      Freeze(entries[k], true);
      affected := 1;
    }

    method ApplyBreak(entries: array<Session>, ghost c: set<nat>) returns (affected: nat)
      requires Valid() && Lists(entries[..], c) && c != {}
      modifies sessions
      ensures Valid() && old(c <= Info().Keys)
      ensures (Info(), affected) == ApplyTo(old(Info()), c, B.Break)
    {
      hide *;
      var k := FirstWith(entries, true);
      BreakPicks(entries[..], c, k);
      if k == entries.Length {
        k := 0;
      }
      Drop(entries[k]);
      affected := 1;
    }

    method ApplyCancel(entries: array<Session>, ghost c: set<nat>) returns (affected: nat)
      requires Valid() && Lists(entries[..], c) && c != {}
      modifies sessions
      ensures Valid() && old(c <= Info().Keys)
      ensures (Info(), affected) == ApplyTo(old(Info()), c, B.Cancel)
    {
      hide *;
      ghost var u := Info();
      ghost var order := entries[..];
      CancelPicks(order, c);
      DisconnectMore(u, order, 0);
      affected := 0;
      var i := 0;
      while i + 1 < entries.Length
        invariant 0 <= i < entries.Length && affected == i && entries[..] == order
        invariant Valid() && Info() == Disconnect(u, IdSet(order[..i]))
      {
        assert entries[i] == order[i] && order[i] in order;
        DisconnectMore(u, order, i);
        Drop(entries[i]);
        affected := affected + 1;
        i := i + 1;
      }
    }

    method ApplyResume(entries: array<Session>, ghost c: set<nat>) returns (affected: nat)
      requires Valid() && Lists(entries[..], c) && c != {}
      modifies sessions
      ensures Valid() && old(c <= Info().Keys)
      ensures (Info(), affected) == ApplyTo(old(Info()), c, B.Resume)
    {
      hide *;
      ghost var u := Info();
      ghost var order := entries[..];
      ResumePicks(order, c);
      var i := 0;
      if i < entries.Length {
        ResumeMore(u, order, 0);
      } else {
        SetPausedNone(u, order);
      }
      while i < entries.Length
        invariant 0 <= i <= entries.Length && entries[..] == order
        invariant Valid() && Info() == SetPaused(u, IdSet(order[..i]), false)
      {
        assert entries[i] == order[i] && order[i] in order;
        ResumeMore(u, order, i);
        Freeze(entries[i], false);
        i := i + 1;
      }
      assert order[..i] == order;
      affected := entries.Length;
    }

    method SortedUsers() returns (entries: array<Session>)
      requires Valid()
      ensures fresh(entries) && Lists(entries[..], Collected(View()))
      ensures entries.Length == 0 <==> Collected(View()) == {}
    {
      hide *;
      var users := CollectUsers();
      ghost var c := Collected(View());
      CollectedIds(users);
      entries := ArrayOf(users);
      SortVictimsFirst(entries);
      SameListed(users, entries[..], c);
    }

    lemma SameListed(users: seq<Session>, order: seq<Session>, c: set<nat>)
      requires ListedIn(users, sessions) && IdSet(users) == c && multiset(users) == multiset(order)
      requires SortedFirst(order) && DistinctIds(order)
      ensures Lists(order, c) && (order == [] <==> c == {})
    {
      SameMembers(users, order);
      if order != [] {
        assert order[0] in order;
      }
    }

    /** Apply an action of a pressed link to the users of the service. */
    method Apply(action: B.Action) returns (affected: nat)
      requires Valid()
      modifies sessions
      ensures Valid()
      ensures (View(), affected) == BandwidthPolicy.Apply(old(View()), action)
    {
      hide *;
      ViewIs();
      ghost var c := Collected(View());
      ghost var u := Info();
      ghost var r := View();
      var entries := SortedUsers();
      affected := ApplySorted(entries, c, action);
      ViewIs();
      ApplyMeaning(r, u, c, action);
    }

    method ApplySorted(entries: array<Session>, ghost c: set<nat>, action: B.Action) returns (affected: nat)
      requires Valid() && Lists(entries[..], c) && (entries.Length == 0 <==> c == {})
      modifies sessions
      ensures Valid() && old(c <= Info().Keys)
      ensures (Info(), affected) == ApplyTo(old(Info()), c, action)
    {
      ghost var u := Info();
      ListsDescribes(entries[..], c);
      hide *;
      if entries.Length == 0 {
        EmptyApply(u, action);
        return 0;
      }
      match action
      case Pause => affected := ApplyPause(entries, c);
      case Break => affected := ApplyBreak(entries, c);
      case Cancel => affected := ApplyCancel(entries, c);
      case Resume => affected := ApplyResume(entries, c);
      case None =>
        NoneApply(u, c);
        affected := 0;
    }

    lemma ViewIs()
      requires Valid()
      ensures View() == Roster(Info(), IdsOf(sessions))
    {
    }
  }

  lemma ApplyMeaning(r: Roster, u: Users, c: set<nat>, action: B.Action)
    requires r.info == u && c == Collected(r)
    ensures BandwidthPolicy.Apply(r, action) == (r.(info := ApplyTo(u, c, action).0), ApplyTo(u, c, action).1)
  {
  }

  method ArrayOf(ss: seq<Session>) returns (a: array<Session>)
    ensures fresh(a) && a[..] == ss
  {
    a := new Session[|ss|](i requires 0 <= i < |ss| => ss[i]);
  }

  lemma EmptyApply(u: Users, action: B.Action)
    ensures ApplyTo(u, {}, action) == (u, 0)
  {
  }

  lemma NoneApply(u: Users, c: set<nat>)
    requires c <= u.Keys
    ensures ApplyTo(u, c, B.None) == (u, 0)
  {
  }
}
