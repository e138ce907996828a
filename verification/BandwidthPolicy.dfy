/**
 Who gives way when a slow link is under pressure: logged-in radio users
 before TCP users, the newest first.  This module states the policy on values;
 PolicyService.dfy is the in-place code that sorts the users and flags them.

 Disconnecting a user only marks the session (`leaving`) and unfreezes it; its
 own transport removes it later, so a leaving user is still visited meanwhile.
 */
module BandwidthPolicy {
  import opened Balance

  const USER_MAX: nat := 128

  datatype Kind = PacketRadio | Telnet | CircuitLink | Other

  datatype User = User(kind: Kind, connectedAt: int, loggedIn: bool, paused: bool, leaving: bool)

  /** The online sessions by session id, and the order in which the service visits them. */
  datatype Roster = Roster(info: map<nat, User>, visit: seq<nat>)

  type Users = map<nat, User>

  function Priority(k: Kind): int {
    match k
    case PacketRadio => 0
    case Telnet => 1
    case _ => -1
  }

  predicate Eligible(u: User) {
    Priority(u.kind) >= 0 && u.loggedIn
  }

  /** The order of sacrifice: radio before TCP, then newest, then highest id. */
  predicate Precedes(u: Users, i: nat, j: nat)
    requires i in u && j in u
  {
    var (a, b) := (u[i], u[j]);
    || Priority(a.kind) < Priority(b.kind)
    || (Priority(a.kind) == Priority(b.kind) &&
        (a.connectedAt > b.connectedAt || (a.connectedAt == b.connectedAt && i > j)))
  }

  /** The first USER_MAX eligible ids of a visit. */
  function Collect(u: Users, visit: seq<nat>, room: nat): (c: seq<nat>)
    ensures |c| <= room && forall i | i in c :: i in visit && i in u && Eligible(u[i])
  {
    if visit == [] || room == 0 then []
    else if visit[0] in u && Eligible(u[visit[0]]) then [visit[0]] + Collect(u, visit[1..], room - 1)
    else Collect(u, visit[1..], room)
  }

  function AsSet(ids: seq<nat>): (c: set<nat>)
    ensures forall i :: i in c <==> i in ids
  {
    set i | i in ids
  }

  function Collected(r: Roster): (c: set<nat>)
    ensures c <= r.info.Keys && forall i | i in c :: Eligible(r.info[i])
  {
    AsSet(Collect(r.info, r.visit, USER_MAX))
  }

  /** The member of a non-empty set that is sacrificed first. */
  ghost function Least(u: Users, ids: set<nat>): (r: nat)
    requires ids != {} && ids <= u.Keys
    ensures r in ids && forall j | j in ids && j != r :: Precedes(u, r, j)
    decreases ids
  {
    var x :| x in ids;
    if ids == {x} then x else
    var r := Least(u, ids - {x});
    assert forall j | j in ids && j != x :: j in ids - {x};
    if Precedes(u, x, r) then x else r
  }

  /** The member of a non-empty set that is sacrificed last. */
  ghost function Greatest(u: Users, ids: set<nat>): (r: nat)
    requires ids != {} && ids <= u.Keys
    ensures r in ids && forall j | j in ids && j != r :: Precedes(u, j, r)
    decreases ids
  {
    var x :| x in ids;
    if ids == {x} then x else
    var r := Greatest(u, ids - {x});
    assert forall j | j in ids && j != x :: j in ids - {x};
    if Precedes(u, r, x) then x else r
  }

  function PausedIn(u: Users, c: set<nat>): set<nat>
    requires c <= u.Keys
  {
    set i | i in c && u[i].paused
  }

  function SetPaused(u: Users, ids: set<nat>, paused: bool): Users {
    map i | i in u :: if i in ids then u[i].(paused := paused) else u[i]
  }

  function Disconnect(u: Users, ids: set<nat>): Users {
    map i | i in u :: if i in ids && u[i].loggedIn then u[i].(paused := false, leaving := true) else u[i]
  }

  /** The users after an action on the collected ones, and how many it affected. */
  ghost function ApplyTo(u: Users, c: set<nat>, action: Action): (Users, nat)
    requires c <= u.Keys
  {
    if c == {} then (u, 0) else
    match action
    case Pause =>
      var t := c - PausedIn(u, c);
      if t == {} then (u, 0) else (SetPaused(u, {Least(u, t)}, true), 1)
    case Break =>
      var p := PausedIn(u, c);
      (Disconnect(u, {Least(u, if p != {} then p else c)}), 1)
    case Cancel =>
      (Disconnect(u, c - {Greatest(u, c)}), |c| - 1)
    case Resume =>
      (SetPaused(u, c, false), |c|)
    case None =>
      (u, 0)
  }

  ghost function Apply(r: Roster, action: Action): (Roster, nat) {
    var (u, n) := ApplyTo(r.info, Collected(r), action);
    (r.(info := u), n)
  }

  // ---------- the order of sacrifice over whole runs ----------

  /** The users a disconnect has not reached yet. */
  function Staying(u: Users, c: set<nat>): set<nat>
    requires c <= u.Keys
  {
    set i | i in c && !u[i].leaving
  }

  /**
   The collected users, in order of sacrifice, are first the leaving ones, then
   the staying ones; and the paused among the staying ones come before the rest.
   */
  ghost predicate Orderly(u: Users, c: set<nat>)
    requires c <= u.Keys
  {
    && (forall i, j | i in c && j in c && u[i].leaving && !u[j].leaving :: Precedes(u, i, j))
    && (forall i, j | i in Staying(u, c) && j in Staying(u, c) && u[j].paused && Precedes(u, i, j) :: u[i].paused)
  }

  /** Flags do not matter to the order or to eligibility. */
  predicate SameUsers(u: Users, v: Users) {
    && u.Keys == v.Keys
    && forall i | i in u :: u[i].kind == v[i].kind && u[i].connectedAt == v[i].connectedAt && u[i].loggedIn == v[i].loggedIn
  }

  lemma ApplyKeepsUsers(u: Users, c: set<nat>, action: Action)
    requires c <= u.Keys
    ensures SameUsers(u, ApplyTo(u, c, action).0)
    ensures forall i | i in u && i !in c :: ApplyTo(u, c, action).0[i] == u[i]
  {
  }

  /** Every action keeps the users orderly. */
  lemma ApplyOrderly(u: Users, c: set<nat>, action: Action)
    requires c <= u.Keys && Orderly(u, c) && forall i | i in c :: Eligible(u[i])
    ensures Orderly(ApplyTo(u, c, action).0, c)
  {
    if c != {} {
      match action
      case Pause =>
        var t := c - PausedIn(u, c);
        if t != {} {
          PauseOrderly(u, c, Least(u, t));
        }
      case Break =>
        var p := PausedIn(u, c);
        BreakOrderly(u, c, Least(u, if p != {} then p else c));
      case Cancel => CancelOrderly(u, c, Greatest(u, c));
      case Resume =>
      case None =>
    }
  }

  lemma PauseOrderly(u: Users, c: set<nat>, x: nat)
    requires c <= u.Keys && Orderly(u, c) && x in c && !u[x].paused
    requires forall j | j in c && !u[j].paused && j != x :: Precedes(u, x, j)
    ensures Orderly(SetPaused(u, {x}, true), c)
  {
    var v := SetPaused(u, {x}, true);
    forall i, j | i in Staying(v, c) && j in Staying(v, c) && v[j].paused && Precedes(v, i, j)
      ensures v[i].paused
    {
      assert Precedes(u, i, j) && i in Staying(u, c) && j in Staying(u, c);
    }
    assert forall i, j | i in c && j in c && v[i].leaving && !v[j].leaving :: Precedes(u, i, j);
  }

  /** The user a break picks is leaving already or the first of those that stay. */
  lemma BreakPick(u: Users, c: set<nat>)
    requires c <= u.Keys && c != {} && Orderly(u, c)
    ensures var p := PausedIn(u, c);
            var x := Least(u, if p != {} then p else c);
            x in c && (u[x].leaving || forall j | j in Staying(u, c) && j != x :: Precedes(u, x, j))
  {
    var p := PausedIn(u, c);
    var x := Least(u, if p != {} then p else c);
    if !u[x].leaving {
      forall j | j in Staying(u, c) && j != x
        ensures Precedes(u, x, j)
      {
        if Precedes(u, j, x) {
          assert j in p;
        }
      }
    }
  }

  lemma BreakOrderly(u: Users, c: set<nat>, x: nat)
    requires c <= u.Keys && c != {} && Orderly(u, c) && forall i | i in c :: Eligible(u[i])
    requires var p := PausedIn(u, c); x == Least(u, if p != {} then p else c)
    ensures Orderly(Disconnect(u, {x}), c)
  {
    BreakPick(u, c);
    var v := Disconnect(u, {x});
    forall i, j | i in c && j in c && v[i].leaving && !v[j].leaving
      ensures Precedes(v, i, j)
    {
      assert j in Staying(u, c) && j != x;
      assert Precedes(u, i, j);
    }
    forall i, j | i in Staying(v, c) && j in Staying(v, c) && v[j].paused && Precedes(v, i, j)
      ensures v[i].paused
    {
      assert Precedes(u, i, j) && i in Staying(u, c) && j in Staying(u, c);
    }
  }

  lemma CancelOrderly(u: Users, c: set<nat>, last: nat)
    requires c <= u.Keys && Orderly(u, c) && last in c && forall i | i in c :: Eligible(u[i])
    requires forall j | j in c && j != last :: Precedes(u, j, last)
    ensures Orderly(Disconnect(u, c - {last}), c)
  {
    var v := Disconnect(u, c - {last});
    assert forall i | i in c && !v[i].leaving :: i == last;
    forall i, j | i in c && j in c && v[i].leaving && !v[j].leaving
      ensures Precedes(v, i, j)
    {
      assert j == last && i != last;
      assert Precedes(u, i, last);
    }
  }

  /** A cancel leaves exactly the last user in order of sacrifice, if that one was staying. */
  lemma CancelKeepsLast(u: Users, c: set<nat>)
    requires c <= u.Keys && c != {} && forall i | i in c :: Eligible(u[i])
    ensures var v := ApplyTo(u, c, Cancel).0;
            var last := Greatest(u, c);
            && Staying(v, c) == Staying(u, c) * {last}
            && v[last] == u[last]
  {
  }

  /** What happens to the users of a running service with no arrivals. */
  datatype Event = Act(action: Action) | Gone(id: nat)

  ghost function Happen(r: Roster, e: Event): Roster {
    match e
    case Act(action) => Apply(r, action).0
    case Gone(id) => Roster(r.info - {id}, r.visit)
  }

  ghost function After(r: Roster, events: seq<Event>): Roster {
    if events == [] then r else Happen(After(r, events[..|events| - 1]), events[|events| - 1])
  }

  function EligibleCount(u: Users, visit: seq<nat>): nat {
    if visit == [] then 0
    else (if visit[0] in u && Eligible(u[visit[0]]) then 1 else 0) + EligibleCount(u, visit[1..])
  }

  /** Few enough users that each visit collects them all. */
  ghost predicate AllVisited(r: Roster) {
    && EligibleCount(r.info, r.visit) <= USER_MAX
    && forall i | i in r.info && Eligible(r.info[i]) :: i in r.visit
  }

  lemma {:induction false} CollectAll(u: Users, visit: seq<nat>, room: nat)
    requires EligibleCount(u, visit) <= room
    ensures forall i | i in visit && i in u && Eligible(u[i]) :: i in Collect(u, visit, room)
  {
    if visit != [] && room != 0 {
      CollectAll(u, visit[1..], if visit[0] in u && Eligible(u[visit[0]]) then room - 1 else room);
    } else if visit != [] {
      NoneEligible(u, visit);
    }
  }

  lemma {:induction false} NoneEligible(u: Users, visit: seq<nat>)
    requires EligibleCount(u, visit) == 0
    ensures forall i | i in visit && i in u :: !Eligible(u[i])
  {
    if visit != [] {
      NoneEligible(u, visit[1..]);
    }
  }

  lemma {:induction false} CountShrinks(u: Users, v: Users, visit: seq<nat>)
    requires forall i | i in v && Eligible(v[i]) :: i in u && Eligible(u[i])
    ensures EligibleCount(v, visit) <= EligibleCount(u, visit)
  {
    if visit != [] {
      CountShrinks(u, v, visit[1..]);
    }
  }

  lemma CollectedAll(r: Roster)
    requires AllVisited(r)
    ensures Collected(r) == set i | i in r.info && Eligible(r.info[i])
  {
    CollectAll(r.info, r.visit, USER_MAX);
  }

  lemma ApplyVisits(r: Roster, action: Action)
    requires AllVisited(r)
    ensures AllVisited(Apply(r, action).0) && Collected(Apply(r, action).0) == Collected(r)
    ensures SameUsers(r.info, Apply(r, action).0.info)
  {
    var c := Collected(r);
    var r1 := Apply(r, action).0;
    ApplyKeepsUsers(r.info, c, action);
    hide ApplyTo;
    CountShrinks(r.info, r1.info, r.visit);
    CollectedAll(r);
    CollectedAll(r1);
  }

  lemma ActOrderly(r: Roster, action: Action)
    requires AllVisited(r) && Orderly(r.info, Collected(r))
    ensures var r1 := Apply(r, action).0;
            AllVisited(r1) && Collected(r1) == Collected(r) && Orderly(r1.info, Collected(r1))
  {
    ApplyVisits(r, action);
    ApplyOrderly(r.info, Collected(r), action);
  }

  lemma HappenOrderly(r: Roster, e: Event)
    requires AllVisited(r) && Orderly(r.info, Collected(r))
    ensures AllVisited(Happen(r, e)) && Orderly(Happen(r, e).info, Collected(Happen(r, e)))
    ensures Collected(Happen(r, e)) == if e.Gone? then Collected(r) - {e.id} else Collected(r)
  {
    match e
    case Act(action) => ActOrderly(r, action);
    case Gone(id) =>
      var r1 := Happen(r, e);
      CountShrinks(r.info, r1.info, r.visit);
      CollectedAll(r);
      CollectedAll(r1);
      assert Collected(r1) == Collected(r) - {id};
      GoneOrderly(r.info, Collected(r), id);
  }

  lemma GoneOrderly(u: Users, c: set<nat>, id: nat)
    requires c <= u.Keys && Orderly(u, c)
    ensures Orderly(u - {id}, c - {id})
  {
    var v := u - {id};
    assert forall i | i in v :: v[i] == u[i];
    forall i, j | i in Staying(v, c - {id}) && j in Staying(v, c - {id}) && v[j].paused && Precedes(v, i, j)
      ensures v[i].paused
    {
      assert Precedes(u, i, j) && i in Staying(u, c) && j in Staying(u, c);
    }
  }

  /**
   Whatever pauses, breaks, cancels, resumes and departures follow, the paused
   users that stay are the first of the staying users in order of sacrifice.
   */
  lemma {:induction false} PausedFirst(r: Roster, events: seq<Event>)
    requires AllVisited(r) && Orderly(r.info, Collected(r))
    ensures AllVisited(After(r, events)) && Orderly(After(r, events).info, Collected(After(r, events)))
  {
    if events != [] {
      PausedFirst(r, events[..|events| - 1]);
      HappenOrderly(After(r, events[..|events| - 1]), events[|events| - 1]);
    }
  }

  /** In particular from users of whom nobody is paused or leaving. */
  lemma PausedFirstFromFresh(r: Roster, events: seq<Event>)
    requires AllVisited(r) && forall i | i in Collected(r) :: !r.info[i].paused && !r.info[i].leaving
    ensures var s := After(r, events);
            forall i, j | i in Staying(s.info, Collected(s)) && j in Staying(s.info, Collected(s)) && s.info[j].paused && Precedes(s.info, i, j)
              :: s.info[i].paused
  {
    PausedFirst(r, events);
  }

  // ---------- what the code's sorted list has to find ----------

  lemma LeastUnique(u: Users, ids: set<nat>, r: nat)
    requires ids <= u.Keys && r in ids && forall j | j in ids && j != r :: Precedes(u, r, j)
    ensures r == Least(u, ids)
  {
  }

  lemma GreatestUnique(u: Users, ids: set<nat>, r: nat)
    requires ids <= u.Keys && r in ids && forall j | j in ids && j != r :: Precedes(u, j, r)
    ensures r == Greatest(u, ids)
  {
  }
}
