/** Who is sacrificed, in plain terms of users: radio before TCP, the newest first, then the highest id. */
module SacrificeOrder {
  import opened Balance
  import opened BandwidthPolicy

  /** Logged in over packet radio or over TCP. */
  predicate Sacrificeable(u: User) {
    u.loggedIn && (u.kind == PacketRadio || u.kind == Telnet)
  }

  /** User a, with id i, goes before user b, with id j. */
  predicate Sooner(a: User, i: nat, b: User, j: nat) {
    || (a.kind == PacketRadio && b.kind == Telnet)
    || (a.kind == b.kind && a.connectedAt > b.connectedAt)
    || (a.kind == b.kind && a.connectedAt == b.connectedAt && i > j)
  }

  lemma EligibleExactly(u: User)
    ensures Eligible(u) <==> Sacrificeable(u)
  {
  }

  lemma PrecedesExactly(u: Users, i: nat, j: nat)
    requires i in u && j in u && Sacrificeable(u[i]) && Sacrificeable(u[j])
    ensures Precedes(u, i, j) <==> Sooner(u[i], i, u[j], j)
  {
  }

  /** With at most 128 of them, the policy sees exactly the users logged in over radio or TCP. */
  lemma SeesAll(r: Roster)
    requires EligibleCount(r.info, r.visit) <= 128 && forall i | i in r.info && Sacrificeable(r.info[i]) :: i in r.visit
    ensures Collected(r) == set i | i in r.info && Sacrificeable(r.info[i])
  {
    assert forall i | i in r.info :: Eligible(r.info[i]) <==> Sacrificeable(r.info[i]);
    CollectedAll(r);
  }

  /** x goes before every other user of the pool; so it is a radio user if there is one there. */
  ghost predicate FirstOf(u: Users, pool: set<nat>, x: nat)
    requires pool <= u.Keys
  {
    && x in pool && (forall j | j in pool && j != x :: Sooner(u[x], x, u[j], j))
    && ((exists j | j in pool :: u[j].kind == PacketRadio) ==> u[x].kind == PacketRadio)
  }

  lemma LeastIsFirst(u: Users, pool: set<nat>)
    requires pool != {} && pool <= u.Keys && forall i | i in pool :: Sacrificeable(u[i])
    ensures FirstOf(u, pool, Least(u, pool))
  {
    var x := Least(u, pool);
    forall j | j in pool && j != x ensures Sooner(u[x], x, u[j], j) {
      PrecedesExactly(u, x, j);
    }
  }

  /** A pause pauses one more user, the first of those that are not paused, and touches nobody else. */
  lemma PausePicks(u: Users, c: set<nat>) returns (x: nat)
    requires c <= u.Keys && forall i | i in c :: Sacrificeable(u[i])
    ensures var pool := set i | i in c && !u[i].paused;
            if pool == {} then ApplyTo(u, c, Pause) == (u, 0)
            else FirstOf(u, pool, x) && ApplyTo(u, c, Pause) == (u[x := u[x].(paused := true)], 1)
  {
    var pool := set i | i in c && !u[i].paused;
    assert pool == c - PausedIn(u, c);
    x := 0;
    if pool != {} {
      x := Least(u, pool);
      LeastIsFirst(u, pool);
      assert SetPaused(u, {x}, true) == u[x := u[x].(paused := true)];
    }
  }

  /** A break disconnects one user, the first of the paused ones, or of all if nobody is paused. */
  lemma BreakPicks(u: Users, c: set<nat>) returns (x: nat)
    requires c <= u.Keys && c != {} && forall i | i in c :: Sacrificeable(u[i])
    ensures var paused := set i | i in c && u[i].paused;
            && FirstOf(u, if paused != {} then paused else c, x)
            && ApplyTo(u, c, Break) == (u[x := u[x].(paused := false, leaving := true)], 1)
  {
    var paused := set i | i in c && u[i].paused;
    assert paused == PausedIn(u, c);
    var pool := if paused != {} then paused else c;
    x := Least(u, pool);
    LeastIsFirst(u, pool);
    assert Disconnect(u, {x}) == u[x := u[x].(paused := false, leaving := true)];
  }

  /** A cancel disconnects all but the user that every other one goes before: a TCP user if there is one. */
  lemma CancelPicks(u: Users, c: set<nat>) returns (x: nat)
    requires c <= u.Keys && c != {} && forall i | i in c :: Sacrificeable(u[i])
    ensures var (v, n) := ApplyTo(u, c, Cancel);
            && n == |c| - 1 && v.Keys == u.Keys && x in c
            && (forall j | j in c && j != x :: Sooner(u[j], j, u[x], x))
            && ((exists j | j in c :: u[j].kind == Telnet) ==> u[x].kind == Telnet)
            && (forall j | j in u :: v[j] == if j in c && j != x then u[j].(paused := false, leaving := true) else u[j])
  {
    x := Greatest(u, c);
    forall j | j in c && j != x ensures Sooner(u[j], j, u[x], x) {
      PrecedesExactly(u, j, x);
    }
  }

  /** A resume lets all users go on, and nothing else happens to anybody. */
  lemma ResumeFrees(u: Users, c: set<nat>)
    requires c <= u.Keys
    ensures var (v, n) := ApplyTo(u, c, Resume);
            n == |c| && v.Keys == u.Keys && forall j | j in u :: v[j] == if j in c then u[j].(paused := false) else u[j]
    ensures ApplyTo(u, c, None) == (u, 0)
  {
  }

  /** Nobody to sacrifice: no action does anything. */
  lemma NobodyToSacrifice(u: Users, action: Action)
    ensures ApplyTo(u, {}, action) == (u, 0)
  {
  }

  /**
   Over any run from fresh users: no TCP user that stays is paused while a radio
   user that stays is not; nor, of the same kind, an older one while a newer one
   is not, nor a lower id while a higher one of the same age is not.
   */
  lemma RadioFirst(r: Roster, events: seq<Event>, i: nat, j: nat)
    requires AllVisited(r) && forall k | k in Collected(r) :: !r.info[k].paused && !r.info[k].leaving
    requires var s := After(r, events); i in s.info && j in s.info && Sacrificeable(s.info[i]) && Sacrificeable(s.info[j])
    requires var s := After(r, events); !s.info[i].leaving && !s.info[j].leaving && s.info[j].paused && !s.info[i].paused
    ensures var s := After(r, events); !Sooner(s.info[i], i, s.info[j], j)
    ensures var s := After(r, events); !(s.info[i].kind == PacketRadio && s.info[j].kind == Telnet)
  {
    PausedFirst(r, events);
    var s := After(r, events);
    SeesAll(s);
    PrecedesExactly(s.info, i, j);
    hide After, Collected, Precedes, AllVisited, Sooner;
    assert i in Staying(s.info, Collected(s)) && j in Staying(s.info, Collected(s));
  }

  /** A run applies its events one after the other; a departure takes its user away and nothing else. */
  lemma RunsOn(r: Roster, events: seq<Event>, e: Event)
    ensures After(r, events + [e]) == Happen(After(r, events), e) && After(r, []) == r
    ensures e.Gone? ==> Happen(r, e) == Roster(r.info - {e.id}, r.visit)
    ensures e.Act? ==> Happen(r, e) == Apply(r, e.action).0
  {
    assert (events + [e])[..|events|] == events;
  }
}
