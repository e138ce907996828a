/**
 A pressed link and the users behind the hub: when the load balancer would
 cancel a link, users are disconnected first and the link is spared.
 */
module LinkGuard {
  import opened Balance
  import opened BandwidthPolicy

  datatype Link = Link(profile: Profile, bal: State)

  datatype Hub = Hub(links: seq<Link>, roster: Roster)

  /** The users that the policy can still disconnect: eligible and not leaving yet. */
  ghost function Spendable(r: Roster): set<nat> {
    set i | i in r.info && Eligible(r.info[i]) && !r.info[i].leaving
  }

  /** A cancel can be turned on the users exactly when it affects one, that is when there are two. */
  ghost predicate WouldSpare(r: Roster) {
    |Collected(r)| >= 2
  }

  /** Apply the action to the users; if that affected anyone, spare the link. */
  ghost function SpareLink(r: Roster, s: State, action: Action): (Roster, State, bool) {
    if Collected(r) == {} then (r, s, false) else
    var (r1, affected) := Apply(r, action);
    if affected == 0 then (r1, s, false) else (r1, SparedCancel(s), true)
  }

  /** The flow callback turns each call on the users. */
  ghost function FlowEffects(r: Roster, flow: seq<FlowCall>): Roster {
    if flow == [] then r else Apply(FlowEffects(r, flow[..|flow| - 1]), flow[|flow| - 1].action).0
  }

  predicate CancelTold(flow: seq<FlowCall>) {
    exists i | 0 <= i < |flow| :: flow[i].action == Cancel
  }

  /** `spared`: a cancel was turned on the users; `cancelled`: the link itself is given up. */
  datatype LinkOutcome = LinkOutcome(bal: State, roster: Roster, cancelled: bool, spared: bool)

  ghost function TickLink(cfg: Config, l: Link, r: Roster, pollMs: nat, sendOks: nat, now: int): LinkOutcome {
    var o := Tick(cfg, l.profile, l.bal, pollMs, sendOks, now, WouldSpare(r));
    var r1 := FlowEffects(r, o.flow);
    var pressed := l.profile.low && cfg.enabled && o.next.action == Pause && TotalBytes(o.next.queue) >= cfg.queuePause;
    var r2 := if pressed then SpareLink(r1, o.next, Pause).0 else r1;
    var inside := CancelTold(o.flow) && WouldSpare(r);
    if o.result == CancelLink then
      var (r3, s3, spared) := SpareLink(r2, o.next, Cancel);
      LinkOutcome(s3, r3, !spared, inside || spared)
    else
      LinkOutcome(o.next, r2, false, inside)
  }

  ghost function SubmitLink(cfg: Config, l: Link, r: Roster, frame: Frame, direct: Result, now: int): LinkOutcome {
    var o := Submit(cfg, l.profile, l.bal, frame, direct, now, WouldSpare(r));
    LinkOutcome(o.next, FlowEffects(r, o.flow), false, CancelTold(o.flow) && WouldSpare(r))
  }

  // ---------- what the flow calls of one escalation can be ----------

  lemma EscalateCalls(cfg: Config, p: Profile, s: State, now: int, spare: bool)
    ensures var (s1, flow) := Escalate(cfg, p, s, now, spare);
            && (CancelTold(flow) ==> flow == [FlowCall(Cancel, "queue_overload")] && (spare ==> s1.action == Pause))
            && (s1.action == Cancel ==> flow == [] || (CancelTold(flow) && !spare))
  {
    var (s1, flow) := Escalate(cfg, p, s, now, spare);
    if s1.action == Cancel && flow != [] {
      assert flow[0].action == Cancel;
    }
  }

  lemma TickCalls(cfg: Config, p: Profile, s: State, pollMs: nat, sendOks: nat, now: int, spare: bool)
    ensures var o := Tick(cfg, p, s, pollMs, sendOks, now, spare);
            && (CancelTold(o.flow) ==> o.flow == [FlowCall(Cancel, "queue_overload")] && (spare ==> o.result == TickOk))
            && (o.result == CancelLink ==> o.next.action == Cancel && (o.flow == [] || (CancelTold(o.flow) && !spare)))
  {
    EscalateCalls(cfg, p, s, now, spare);
    EscalateCalls(cfg, p, Drained(p, s, pollMs, sendOks).0, now, spare);
  }

  lemma SubmitCalls(cfg: Config, p: Profile, s: State, frame: Frame, direct: Result, now: int, spare: bool)
    ensures var o := Submit(cfg, p, s, frame, direct, now, spare);
            CancelTold(o.flow) ==> o.flow == [FlowCall(Cancel, "queue_overload")]
  {
    EscalateCalls(cfg, p, s, now, spare);
    EscalateCalls(cfg, p, Enqueue(s, frame, now), now, spare);
  }

  // ---------- links are sacrificed last ----------

  lemma SpareIff(r: Roster, s: State)
    ensures SpareLink(r, s, Cancel).2 <==> WouldSpare(r)
    ensures !WouldSpare(r) ==> Apply(r, Cancel).0 == r && SpareLink(r, s, Cancel).0 == r
  {
    var c := Collected(r);
    if c != {} && |c| == 1 {
      var g := Greatest(r.info, c);
      SingletonIs(c, g);
      assert Disconnect(r.info, {}) == r.info;
    }
  }

  lemma SingletonIs(c: set<nat>, g: nat)
    requires |c| == 1 && g in c
    ensures c == {g}
  {
    assert |c - {g}| == 0;
  }

  lemma OneCall(r: Roster, call: FlowCall)
    ensures FlowEffects(r, [call]) == Apply(r, call.action).0
  {
    assert [call][..0] == [];
  }

  /**
   Links last: the link is given up in exactly the ticks in which the balancer
   wants it cancelled and fewer than two users can be disconnected instead.
   */
  lemma LinksLast(cfg: Config, l: Link, r: Roster, pollMs: nat, sendOks: nat, now: int)
    ensures var o := Tick(cfg, l.profile, l.bal, pollMs, sendOks, now, WouldSpare(r));
            TickLink(cfg, l, r, pollMs, sendOks, now).cancelled <==> o.result == CancelLink && !WouldSpare(r)
    ensures TickLink(cfg, l, r, pollMs, sendOks, now).cancelled ==> TickLink(cfg, l, r, pollMs, sendOks, now).roster == r
  {
    TickCalls(cfg, l.profile, l.bal, pollMs, sendOks, now, WouldSpare(r));
    var o := Tick(cfg, l.profile, l.bal, pollMs, sendOks, now, WouldSpare(r));
    hide Tick, Apply, WouldSpare;
    if o.result == CancelLink {
      SpareIff(r, o.next);
      if o.flow != [] {
        OneCall(r, o.flow[0]);
      }
      assert FlowEffects(r, o.flow) == r;
    }
  }

  predicate NoRepeats(ids: seq<nat>) {
    forall i, j | 0 <= i < j < |ids| :: ids[i] != ids[j]
  }

  lemma {:induction false} CollectLength(u: Users, visit: seq<nat>, room: nat)
    ensures |Collect(u, visit, room)| == if EligibleCount(u, visit) < room then EligibleCount(u, visit) else room
  {
    if visit != [] && room > 0 {
      CollectLength(u, visit[1..], if visit[0] in u && Eligible(u[visit[0]]) then room - 1 else room);
    }
  }

  lemma {:induction false} CollectNoRepeats(u: Users, visit: seq<nat>, room: nat)
    requires NoRepeats(visit)
    ensures NoRepeats(Collect(u, visit, room))
  {
    if visit != [] && room > 0 {
      CollectNoRepeats(u, visit[1..], room);
      CollectNoRepeats(u, visit[1..], room - 1);
      assert forall i | i in visit[1..] :: i != visit[0];
    }
  }

  lemma AsSetLast(ids: seq<nat>, last: nat)
    ensures AsSet(ids + [last]) == AsSet(ids) + {last}
  {
  }

  lemma {:induction false} NoRepeatsSize(ids: seq<nat>)
    requires NoRepeats(ids)
    ensures |AsSet(ids)| == |ids|
  {
    if ids == [] {
      assert AsSet(ids) == {};
    } else {
      var n := |ids| - 1;
      NoRepeatsSize(ids[..n]);
      assert ids[n] !in ids[..n];
      AsSetLast(ids[..n], ids[n]);
      hide AsSet, NoRepeats;
      assert ids[..n] + [ids[n]] == ids;
    }
  }

  /** With each session visited once, the collected users are all the eligible ones, up to the cap. */
  lemma CollectedSize(r: Roster)
    requires NoRepeats(r.visit)
    ensures |Collected(r)| == if EligibleCount(r.info, r.visit) < USER_MAX then EligibleCount(r.info, r.visit) else USER_MAX
  {
    CollectLength(r.info, r.visit, USER_MAX);
    CollectNoRepeats(r.info, r.visit, USER_MAX);
    NoRepeatsSize(Collect(r.info, r.visit, USER_MAX));
  }

  /** So a link is given up only when at most one user is left, however many sessions there are. */
  lemma AtMostOneUserLeft(cfg: Config, l: Link, r: Roster, pollMs: nat, sendOks: nat, now: int)
    requires NoRepeats(r.visit)
    requires TickLink(cfg, l, r, pollMs, sendOks, now).cancelled
    ensures EligibleCount(r.info, r.visit) <= 1
  {
    hide TickLink;
    LinksLast(cfg, l, r, pollMs, sendOks, now);
    CollectedSize(r);
  }

  // ---------- sparing uses users up ----------

  /** A spared cancel leaves one collected user; it disconnects a fresh one iff one was staying besides the last. */
  ghost predicate Productive(r: Roster)
    requires Collected(r) != {}
  {
    exists i | i in Staying(r.info, Collected(r)) :: i != Greatest(r.info, Collected(r))
  }

  lemma ApplyUsesUp(r: Roster, action: Action)
    ensures Spendable(Apply(r, action).0) <= Spendable(r)
    ensures Apply(r, action).0.visit == r.visit
  {
  }

  lemma CancelUsesUp(r: Roster)
    requires WouldSpare(r)
    ensures Productive(r) <==> Spendable(Apply(r, Cancel).0) != Spendable(r)
    ensures Productive(r) ==> |Spendable(Apply(r, Cancel).0)| < |Spendable(r)|
  {
    var c := Collected(r);
    var g := Greatest(r.info, c);
    var r1 := Apply(r, Cancel).0;
    ApplyUsesUp(r, Cancel);
    assert r1.info == Disconnect(r.info, c - {g});
    if Productive(r) {
      var i :| i in Staying(r.info, c) && i != g;
      assert i in Spendable(r) && i !in Spendable(r1);
      StrictSubsetSmaller(Spendable(r1), Spendable(r));
    } else {
      forall i | i in Spendable(r) ensures i in Spendable(r1) {
        assert i in c ==> i in Staying(r.info, c);
      }
    }
  }

  lemma StrictSubsetSmaller(a: set<nat>, b: set<nat>)
    requires a < b
    ensures |a| < |b|
  {
    var x :| x in b && x !in a;
    assert a <= b - {x};
    SubsetSize(a, b - {x});
  }

  lemma {:induction false} SubsetSize(a: set<nat>, b: set<nat>)
    requires a <= b
    ensures |a| <= |b|
    decreases a
  {
    if a != {} {
      var x :| x in a;
      SubsetSize(a - {x}, b - {x});
    }
  }

  lemma {:induction false} FlowUsesUp(r: Roster, flow: seq<FlowCall>)
    ensures Spendable(FlowEffects(r, flow)) <= Spendable(r)
  {
    if flow != [] {
      FlowUsesUp(r, flow[..|flow| - 1]);
      ApplyUsesUp(FlowEffects(r, flow[..|flow| - 1]), flow[|flow| - 1].action);
    }
  }

  /** No collected user is leaving already. */
  ghost predicate NobodyLeaving(r: Roster) {
    forall i | i in Collected(r) :: !r.info[i].leaving
  }

  /** When nobody is leaving already, every spare is productive. */
  lemma PromptSparesProductive(r: Roster)
    requires WouldSpare(r) && NobodyLeaving(r)
    ensures Collected(r) != {} && Productive(r)
  {
    var c := Collected(r);
    var g := Greatest(r.info, c);
    assert c != {g};
    var i :| i in c && i != g;
    assert i in Staying(r.info, c);
  }

  /** Two users of whom nobody is leaving, and the same with the newer one leaving. */
  function TwoUsers(): Roster {
    Roster(map[1 := User(Telnet, 10, true, false, false), 2 := User(Telnet, 20, true, false, false)], [1, 2])
  }

  function OneLeaving(): Roster {
    Roster(map[1 := User(Telnet, 10, true, false, false), 2 := User(Telnet, 20, true, false, true)], [1, 2])
  }

  lemma BothCollected(r: Roster)
    requires r == TwoUsers() || r == OneLeaving()
    ensures Collected(r) == {1, 2}
  {
    assert [1, 2][1..] == [2] && [2][1..] == [];
    assert Collect(r.info, [2], USER_MAX - 1) == [2] + [];
    assert Collect(r.info, [1, 2], USER_MAX) == [1] + [2];
  }

  lemma OlderIsGreatest(u: Users)
    requires u == TwoUsers().info || u == OneLeaving().info
    ensures Greatest(u, {1, 2}) == 1
  {
    assert Precedes(u, 2, 1);
  }

  /** One cancel makes the second of the first: the newer user is disconnected and has not departed yet. */
  lemma CancelLeavesOne()
    ensures Apply(TwoUsers(), Cancel) == (OneLeaving(), 1)
  {
    var r := TwoUsers();
    BothCollected(r);
    OlderIsGreatest(r.info);
    hide Collected, Greatest;
    assert {1, 2} - {1} == {2};
    assert Disconnect(r.info, {2}) == OneLeaving().info;
  }

  /** Otherwise a spare may disconnect nobody, and leave the users exactly as they were. */
  lemma IdleSpareExists(s: State)
    ensures var r := OneLeaving();
            Collected(r) != {} && WouldSpare(r) && !Productive(r) && Apply(r, Cancel).0 == r && SpareLink(r, s, Cancel).2
  {
    var r := OneLeaving();
    BothCollected(r);
    OlderIsGreatest(r.info);
    hide Collected, Greatest;
    assert {1, 2} - {1} == {2};
    assert Disconnect(r.info, {2}) == r.info;
    SpareIff(r, s);
  }

  // ---------- one tick or submit ----------

  /** A spare needs two users, and happens to the users as the event found them. */
  lemma SpareCancels(cfg: Config, l: Link, r: Roster, pollMs: nat, sendOks: nat, now: int)
    requires TickLink(cfg, l, r, pollMs, sendOks, now).spared
    ensures WouldSpare(r)
    ensures Spendable(TickLink(cfg, l, r, pollMs, sendOks, now).roster) <= Spendable(Apply(r, Cancel).0)
  {
    TickCalls(cfg, l.profile, l.bal, pollMs, sendOks, now, WouldSpare(r));
    var o := Tick(cfg, l.profile, l.bal, pollMs, sendOks, now, WouldSpare(r));
    hide Tick, Apply, WouldSpare;
    var r1 := FlowEffects(r, o.flow);
    if CancelTold(o.flow) && WouldSpare(r) {
      OneCall(r, o.flow[0]);
      ApplyUsesUp(r1, Pause);
    } else {
      SpareIff(r, o.next);
      if o.flow != [] {
        OneCall(r, o.flow[0]);
      }
    }
  }

  lemma TickUsesUp(cfg: Config, l: Link, r: Roster, pollMs: nat, sendOks: nat, now: int)
    ensures Spendable(TickLink(cfg, l, r, pollMs, sendOks, now).roster) <= Spendable(r)
  {
    var o := Tick(cfg, l.profile, l.bal, pollMs, sendOks, now, WouldSpare(r));
    hide Tick, Apply, WouldSpare;
    var r1 := FlowEffects(r, o.flow);
    FlowUsesUp(r, o.flow);
    ApplyUsesUp(r1, Pause);
    ApplyUsesUp(r1, Cancel);
    ApplyUsesUp(SpareLink(r1, o.next, Pause).0, Cancel);
  }

  lemma SubmitSpareCancels(cfg: Config, l: Link, r: Roster, frame: Frame, direct: Result, now: int)
    requires SubmitLink(cfg, l, r, frame, direct, now).spared
    ensures WouldSpare(r)
    ensures SubmitLink(cfg, l, r, frame, direct, now).roster == Apply(r, Cancel).0
  {
    SubmitCalls(cfg, l.profile, l.bal, frame, direct, now, WouldSpare(r));
    var o := Submit(cfg, l.profile, l.bal, frame, direct, now, WouldSpare(r));
    OneCall(r, o.flow[0]);
  }

  // ---------- what a tick or submit does to the users ----------

  lemma PauseSpares(r: Roster, s: State)
    ensures SpareLink(r, s, Pause).0 == Apply(r, Pause).0
  {
  }

  /**
   A tick that leaves the link alone applies what it tells the edge to the users,
   in order; and if the link is then paused with queue_pause bytes or more
   still queued, one more user is paused.
   */
  lemma TickTurns(cfg: Config, l: Link, r: Roster, pollMs: nat, sendOks: nat, now: int)
    ensures var o := Tick(cfg, l.profile, l.bal, pollMs, sendOks, now, WouldSpare(r));
            var t := TickLink(cfg, l, r, pollMs, sendOks, now);
            var pressed := l.profile.low && cfg.enabled && o.next.action == Pause && TotalBytes(o.next.queue) >= cfg.queuePause;
            o.result == TickOk ==>
              && !t.cancelled && t.bal == o.next
              && (o.flow == [] ==> t.roster == if pressed then Apply(r, Pause).0 else r)
              && (forall c | o.flow == [c] ::
                    t.roster == if pressed then Apply(Apply(r, c.action).0, Pause).0 else Apply(r, c.action).0)
              && (forall c, d | o.flow == [c, d] ::
                    t.roster == if pressed then Apply(Apply(Apply(r, c.action).0, d.action).0, Pause).0 else Apply(Apply(r, c.action).0, d.action).0)
  {
    var o := Tick(cfg, l.profile, l.bal, pollMs, sendOks, now, WouldSpare(r));
    hide Tick, Apply, WouldSpare, SpareLink;
    PauseSpares(FlowEffects(r, o.flow), o.next);
    if |o.flow| == 1 {
      OneCall(r, o.flow[0]);
      assert o.flow == [o.flow[0]];
    } else if |o.flow| == 2 {
      assert o.flow == [o.flow[0], o.flow[1]];
      TwoCalls(r, o.flow[0], o.flow[1]);
    }
  }

  lemma TwoCalls(r: Roster, c: FlowCall, d: FlowCall)
    ensures FlowEffects(r, [c, d]) == Apply(Apply(r, c.action).0, d.action).0
  {
    hide Apply;
    OneCall(r, c);
    assert [c, d][..1] == [c];
  }

  /** A link that is to be cancelled already is spared, back to a pause, at the users' cost if there are two; otherwise it is given up. */
  lemma CancelTurns(cfg: Config, l: Link, r: Roster, pollMs: nat, sendOks: nat, now: int)
    requires l.bal.action == Cancel
    ensures var t := TickLink(cfg, l, r, pollMs, sendOks, now);
            && t.cancelled == !t.spared == !WouldSpare(r)
            && (WouldSpare(r) ==> t.roster == Apply(r, Cancel).0 && t.bal == l.bal.(action := Pause, lastSent := None))
            && (!WouldSpare(r) ==> t.roster == r && t.bal == l.bal)
  {
    assert Tick(cfg, l.profile, l.bal, pollMs, sendOks, now, WouldSpare(r)) == TickOutcome(l.bal, CancelLink, [], []);
    SpareIff(r, l.bal);
    hide Tick, Apply, WouldSpare;
  }

  /** A submit applies what it tells the edge to the users. */
  lemma SubmitTurns(cfg: Config, l: Link, r: Roster, frame: Frame, direct: Result, now: int)
    ensures var o := Submit(cfg, l.profile, l.bal, frame, direct, now, WouldSpare(r));
            var t := SubmitLink(cfg, l, r, frame, direct, now);
            && t.bal == o.next && !t.cancelled
            && (o.flow == [] ==> t.roster == r)
            && (forall c | o.flow == [c] :: t.roster == Apply(r, c.action).0)
            && (forall c, d | o.flow == [c, d] :: t.roster == Apply(Apply(r, c.action).0, d.action).0)
  {
    var o := Submit(cfg, l.profile, l.bal, frame, direct, now, WouldSpare(r));
    hide Submit, Apply, WouldSpare;
    if |o.flow| == 1 {
      OneCall(r, o.flow[0]);
      assert o.flow == [o.flow[0]];
    } else if |o.flow| == 2 {
      assert o.flow == [o.flow[0], o.flow[1]];
      TwoCalls(r, o.flow[0], o.flow[1]);
    }
  }
}
