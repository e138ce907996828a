/** Whole runs of a hub: how many cancels are turned on the users, and at whose cost. */
module LinkRuns {
  import opened Balance
  import opened BandwidthPolicy
  import opened LinkGuard

  datatype Event =
    | TickEv(link: nat, pollMs: nat, sendOks: nat, now: int)
    | SubmitEv(link: nat, frame: Frame, direct: Result, now: int)
    | GoneEv(id: nat)

  ghost function Outcome(cfg: Config, h: Hub, e: Event): LinkOutcome
    requires !e.GoneEv? && e.link < |h.links|
  {
    match e
    case TickEv(i, pollMs, sendOks, now) => TickLink(cfg, h.links[i], h.roster, pollMs, sendOks, now)
    case SubmitEv(i, frame, direct, now) => SubmitLink(cfg, h.links[i], h.roster, frame, direct, now)
  }

  ghost function Step(cfg: Config, h: Hub, e: Event): Hub {
    if e.GoneEv? then h.(roster := Roster(h.roster.info - {e.id}, h.roster.visit))
    else if e.link >= |h.links| then h
    else
      var o := Outcome(cfg, h, e);
      Hub(h.links[e.link := Link(h.links[e.link].profile, o.bal)], o.roster)
  }

  ghost predicate Spares(cfg: Config, h: Hub, e: Event) {
    !e.GoneEv? && e.link < |h.links| && Outcome(cfg, h, e).spared
  }

  ghost function Run(cfg: Config, h: Hub, events: seq<Event>): Hub {
    if events == [] then h else Step(cfg, Run(cfg, h, events[..|events| - 1]), events[|events| - 1])
  }

  /** The spared cancels of a run that disconnected somebody, and those that did not. */
  ghost function SpareCount(cfg: Config, h: Hub, events: seq<Event>, productive: bool): nat {
    if events == [] then 0 else
    var n := |events| - 1;
    var before := Run(cfg, h, events[..n]);
    SpareCount(cfg, h, events[..n], productive) +
    (if Spares(cfg, before, events[n]) && (Collected(before.roster) != {} && Productive(before.roster)) == productive then 1 else 0)
  }

  lemma StepUsesUp(cfg: Config, h: Hub, e: Event)
    ensures Spendable(Step(cfg, h, e).roster) <= Spendable(h.roster)
    ensures Spares(cfg, h, e) ==> WouldSpare(h.roster)
    ensures Spares(cfg, h, e) && Collected(h.roster) != {} && Productive(h.roster) ==> |Spendable(Step(cfg, h, e).roster)| < |Spendable(h.roster)|
  {
    var r1 := Step(cfg, h, e).roster;
    if !e.GoneEv? && e.link < |h.links| {
      var l := h.links[e.link];
      match e
      case TickEv(i, pollMs, sendOks, now) =>
        TickUsesUp(cfg, l, h.roster, pollMs, sendOks, now);
        if Spares(cfg, h, e) {
          SpareCancels(cfg, l, h.roster, pollMs, sendOks, now);
          CancelUsesUp(h.roster);
          SubsetSize(Spendable(r1), Spendable(Apply(h.roster, Cancel).0));
        }
      case SubmitEv(i, frame, direct, now) =>
        FlowUsesUp(h.roster, Submit(cfg, l.profile, l.bal, frame, direct, now, WouldSpare(h.roster)).flow);
        if Spares(cfg, h, e) {
          SubmitSpareCancels(cfg, l, h.roster, frame, direct, now);
          CancelUsesUp(h.roster);
        }
    }
  }

  /**
   With no arrivals only finitely many cancels are spared at the users' cost:
   each one uses up a user that was still to be had.
   */
  lemma {:induction false} SparesBounded(cfg: Config, h: Hub, events: seq<Event>)
    ensures SpareCount(cfg, h, events, true) + |Spendable(Run(cfg, h, events).roster)| <= |Spendable(h.roster)|
  {
    if events != [] {
      var n := |events| - 1;
      SparesBounded(cfg, h, events[..n]);
      var before := Run(cfg, h, events[..n]);
      hide Spares, Productive, Step, Spendable;
      StepUsesUp(cfg, before, events[n]);
      SubsetSize(Spendable(Run(cfg, h, events).roster), Spendable(before.roster));
    }
  }

  // ---------- at most one spare costs anybody ----------

  /** Whoever is staying has all other collected users before it; so there is at most one such user. */
  ghost predicate LastOnly(r: Roster) {
    forall i, j | i in Staying(r.info, Collected(r)) && j in Collected(r) && j != i :: Precedes(r.info, j, i)
  }

  lemma LastOnlyIdle(r: Roster)
    requires Collected(r) != {} && LastOnly(r)
    ensures !Productive(r)
  {
    var g := Greatest(r.info, Collected(r));
    assert forall i | i in Staying(r.info, Collected(r)) :: i == g;
  }

  lemma ApplyStays(u: Users, c: set<nat>, action: Action)
    requires c <= u.Keys
    ensures SameUsers(u, ApplyTo(u, c, action).0)
    ensures forall i | i in u && u[i].leaving :: ApplyTo(u, c, action).0[i].leaving
  {
  }

  lemma ApplyKeepsLast(r: Roster, action: Action)
    requires AllVisited(r)
    ensures AllVisited(Apply(r, action).0) && (LastOnly(r) ==> LastOnly(Apply(r, action).0))
  {
    ApplyVisits(r, action);
    ApplyStays(r.info, Collected(r), action);
    hide ApplyTo, AllVisited, Collected;
    var r1 := Apply(r, action).0;
    if LastOnly(r) {
      forall i, j | i in Staying(r1.info, Collected(r1)) && j in Collected(r1) && j != i ensures Precedes(r1.info, j, i) {
        assert i in Staying(r.info, Collected(r));
        assert Precedes(r.info, j, i);
      }
    }
  }

  lemma CancelMakesLast(r: Roster)
    requires AllVisited(r)
    ensures AllVisited(Apply(r, Cancel).0) && LastOnly(Apply(r, Cancel).0)
  {
    ApplyVisits(r, Cancel);
    var c := Collected(r);
    var r1 := Apply(r, Cancel).0;
    if c != {} {
      CancelKeepsLast(r.info, c);
      var g := Greatest(r.info, c);
      assert r1.info == ApplyTo(r.info, c, Cancel).0;
      hide ApplyTo, AllVisited, Collected;
      forall i, j | i in Staying(r1.info, c) && j in c && j != i ensures Precedes(r1.info, j, i) {
        assert i == g && Precedes(r.info, j, g);
      }
    }
  }

  lemma {:induction false} FlowKeepsLast(r: Roster, flow: seq<FlowCall>)
    requires AllVisited(r)
    ensures AllVisited(FlowEffects(r, flow)) && (LastOnly(r) ==> LastOnly(FlowEffects(r, flow)))
  {
    hide AllVisited, LastOnly, Apply;
    if flow != [] {
      FlowKeepsLast(r, flow[..|flow| - 1]);
      ApplyKeepsLast(FlowEffects(r, flow[..|flow| - 1]), flow[|flow| - 1].action);
    }
  }

  lemma SpareKeepsLast(r: Roster, s: State, action: Action)
    requires AllVisited(r)
    ensures AllVisited(SpareLink(r, s, action).0) && (LastOnly(r) ==> LastOnly(SpareLink(r, s, action).0))
  {
    ApplyKeepsLast(r, action);
    hide AllVisited, LastOnly, Apply, Collected;
  }

  lemma TickKeepsLast(cfg: Config, l: Link, r: Roster, pollMs: nat, sendOks: nat, now: int)
    requires AllVisited(r)
    ensures var o := TickLink(cfg, l, r, pollMs, sendOks, now);
            AllVisited(o.roster) && (LastOnly(r) || o.spared ==> LastOnly(o.roster))
  {
    hide Tick, Apply, WouldSpare, AllVisited, LastOnly, SpareLink;
    TickCalls(cfg, l.profile, l.bal, pollMs, sendOks, now, WouldSpare(r));
    var o := Tick(cfg, l.profile, l.bal, pollMs, sendOks, now, WouldSpare(r));
    var r1 := FlowEffects(r, o.flow);
    FlowKeepsLast(r, o.flow);
    SpareKeepsLast(r1, o.next, Pause);
    SpareKeepsLast(r1, o.next, Cancel);
    SpareKeepsLast(SpareLink(r1, o.next, Pause).0, o.next, Cancel);
    if CancelTold(o.flow) && WouldSpare(r) {
      OneCall(r, o.flow[0]);
      CancelMakesLast(r);
    }
    SparedByCancel(r1, o.next);
  }

  lemma SparedByCancel(r: Roster, s: State)
    requires AllVisited(r)
    ensures SpareLink(r, s, Cancel).2 ==> LastOnly(SpareLink(r, s, Cancel).0)
  {
    CancelMakesLast(r);
    hide AllVisited, LastOnly, Apply, Collected;
  }

  lemma SubmitKeepsLast(cfg: Config, l: Link, r: Roster, frame: Frame, direct: Result, now: int)
    requires AllVisited(r)
    ensures var o := SubmitLink(cfg, l, r, frame, direct, now);
            AllVisited(o.roster) && (LastOnly(r) || o.spared ==> LastOnly(o.roster))
  {
    hide Submit, Apply, WouldSpare, AllVisited, LastOnly;
    SubmitCalls(cfg, l.profile, l.bal, frame, direct, now, WouldSpare(r));
    var o := Submit(cfg, l.profile, l.bal, frame, direct, now, WouldSpare(r));
    FlowKeepsLast(r, o.flow);
    if CancelTold(o.flow) {
      OneCall(r, o.flow[0]);
      CancelMakesLast(r);
    }
  }

  lemma GoneKeepsLast(r: Roster, id: nat)
    requires AllVisited(r)
    ensures var r1 := Roster(r.info - {id}, r.visit); AllVisited(r1) && (LastOnly(r) ==> LastOnly(r1))
  {
    var r1 := Roster(r.info - {id}, r.visit);
    CountShrinks(r.info, r1.info, r.visit);
    CollectedAll(r);
    CollectedAll(r1);
    assert forall i | i in r1.info :: r1.info[i] == r.info[i];
    hide Collected;
    if LastOnly(r) {
      forall i, j | i in Staying(r1.info, Collected(r1)) && j in Collected(r1) && j != i ensures Precedes(r1.info, j, i) {
        assert i in Staying(r.info, Collected(r)) && Precedes(r.info, j, i);
      }
    }
  }

  lemma StepKeepsLast(cfg: Config, h: Hub, e: Event)
    requires AllVisited(h.roster)
    ensures var r1 := Step(cfg, h, e).roster;
            AllVisited(r1) && (LastOnly(h.roster) || Spares(cfg, h, e) ==> LastOnly(r1))
  {
    hide AllVisited, LastOnly, TickLink, SubmitLink;
    match e
    case GoneEv(id) => GoneKeepsLast(h.roster, id);
    case TickEv(i, pollMs, sendOks, now) =>
      if i < |h.links| {
        TickKeepsLast(cfg, h.links[i], h.roster, pollMs, sendOks, now);
      }
    case SubmitEv(i, frame, direct, now) =>
      if i < |h.links| {
        SubmitKeepsLast(cfg, h.links[i], h.roster, frame, direct, now);
      }
  }

  /**
   While every visit reaches all users, only the first spare of a run can
   disconnect anybody: it leaves one user, and no later one finds another.
   */
  lemma {:induction false} OnlyFirstSpareCosts(cfg: Config, h: Hub, events: seq<Event>)
    requires AllVisited(h.roster)
    ensures SpareCount(cfg, h, events, true) <= 1
    ensures AllVisited(Run(cfg, h, events).roster)
    ensures SpareCount(cfg, h, events, true) + SpareCount(cfg, h, events, false) > 0 ==> LastOnly(Run(cfg, h, events).roster)
  {
    hide Spares, Productive, Step, AllVisited, LastOnly, Collected;
    if events != [] {
      var n := |events| - 1;
      OnlyFirstSpareCosts(cfg, h, events[..n]);
      var before := Run(cfg, h, events[..n]);
      StepKeepsLast(cfg, before, events[n]);
      if Collected(before.roster) != {} && LastOnly(before.roster) {
        LastOnlyIdle(before.roster);
      }
    }
  }

  // ---------- prompt departures ----------

  /** Departures are prompt: no tick or submit of the run finds a leaving user. */
  ghost predicate Prompt(cfg: Config, h: Hub, events: seq<Event>) {
    forall n | 0 <= n < |events| && !events[n].GoneEv? :: NobodyLeaving(Run(cfg, h, events[..n]).roster)
  }

  lemma PromptPrefix(cfg: Config, h: Hub, events: seq<Event>)
    requires Prompt(cfg, h, events) && events != []
    ensures var n := |events| - 1;
            Prompt(cfg, h, events[..n]) && (!events[n].GoneEv? ==> NobodyLeaving(Run(cfg, h, events[..n]).roster))
  {
    hide Run, NobodyLeaving;
    var n := |events| - 1;
    forall k | 0 <= k < n && !events[..n][k].GoneEv? ensures NobodyLeaving(Run(cfg, h, events[..n][..k]).roster) {
      assert events[..n][..k] == events[..k];
    }
  }

  /** Then no spare is idle. */
  lemma {:induction false} PromptSparesAllProductive(cfg: Config, h: Hub, events: seq<Event>)
    requires Prompt(cfg, h, events)
    ensures SpareCount(cfg, h, events, false) == 0
  {
    hide Productive, Step, Spendable, Run, WouldSpare, Collected, Prompt, NobodyLeaving, Outcome;
    if events != [] {
      PromptPrefix(cfg, h, events);
      var n := |events| - 1;
      PromptSparesAllProductive(cfg, h, events[..n]);
      var before := Run(cfg, h, events[..n]);
      StepUsesUp(cfg, before, events[n]);
      if Spares(cfg, before, events[n]) {
        assert !events[n].GoneEv?;
        PromptSparesProductive(before.roster);
      }
    }
  }

  /**
   So in a prompt run all spared cancels together are no more than the users
   there were to lose; and no more than one while every visit reaches all users.
   */
  lemma PromptSparesBounded(cfg: Config, h: Hub, events: seq<Event>)
    requires Prompt(cfg, h, events)
    ensures var spares := SpareCount(cfg, h, events, true) + SpareCount(cfg, h, events, false);
            && spares + |Spendable(Run(cfg, h, events).roster)| <= |Spendable(h.roster)|
            && (AllVisited(h.roster) ==> spares <= 1)
  {
    SparesBounded(cfg, h, events);
    PromptSparesAllProductive(cfg, h, events);
    if AllVisited(h.roster) {
      OnlyFirstSpareCosts(cfg, h, events);
    }
  }

  // ---------- a prompt run that goes on after a spare ----------

  const CONFIG := Config(true, 5, 4096, 16384, 65536)
  const SLOW := Profile(true, 9600)

  function OneHub(bal: State, r: Roster): (h: Hub)
    ensures h.roster == r
  {
    Hub([Link(SLOW, bal)], r)
  }

  /** A frame is queued, found a hundred seconds later, and the cancel is turned on two users; the newer one departs. */
  function SpareAndDeparture(f: Frame): seq<Event> {
    [SubmitEv(0, f, Ok, 100), TickEv(0, 50, 0, 200), GoneEv(2), TickEv(0, 50, 1, 201)]
  }

  lemma QueuedStep(f: Frame)
    requires |f| == 60
    ensures var h1 := Step(CONFIG, OneHub(INIT, TwoUsers()), SubmitEv(0, f, Ok, 100));
            h1 == OneHub(State([f], None, None, 0, 100), TwoUsers())
    ensures !Spares(CONFIG, OneHub(INIT, TwoUsers()), SubmitEv(0, f, Ok, 100))
  {
    var s1 := State([f], None, None, 0, 100);
    assert [f][1..] == [] && TotalBytes([f]) == 60 && [] + [f] == [f];
    assert Escalate(CONFIG, SLOW, s1, 100, true) == (s1, []);
    assert Escalate(CONFIG, SLOW, s1, 100, false) == (s1, []);
    hide Escalate, WouldSpare, Apply;
    assert Submit(CONFIG, SLOW, INIT, f, Ok, 100, WouldSpare(TwoUsers())) == SubmitOutcome(s1, Ok, [], []);
  }

  lemma OverdueTick(f: Frame, lastSent: Action, t: int)
    requires |f| == 60 && t > 0 && lastSent != Cancel
    ensures Tick(CONFIG, SLOW, State([f], None, lastSent, 0, t), 50, 0, t + 100, true) ==
            TickOutcome(State([], Pause, Cancel, 0, 0), TickOk, [], [FlowCall(Cancel, "queue_overload")])
  {
    var s1 := State([f], None, lastSent, 0, t);
    assert [f][1..] == [] && TotalBytes([f]) == 60;
    assert DrainCount([f], 60, 0) == 0;
    assert Drained(SLOW, s1, 50, 0) == (s1, 0);
    hide DrainCount, Drained;
    assert Escalate(CONFIG, SLOW, s1, t + 100, true) == (State([], Pause, Cancel, 0, 0), [FlowCall(Cancel, "queue_overload")]);
  }

  /** A tick whose flow callback turns the cancel on the users. */
  lemma SparedTick(l: Link, r: Roster, now: int)
    requires WouldSpare(r)
    requires Tick(CONFIG, l.profile, l.bal, 50, 0, now, true) ==
             TickOutcome(State([], Pause, Cancel, 0, 0), TickOk, [], [FlowCall(Cancel, "queue_overload")])
    ensures TickLink(CONFIG, l, r, 50, 0, now) == LinkOutcome(State([], Pause, Cancel, 0, 0), Apply(r, Cancel).0, false, true)
  {
    hide Tick, Apply, WouldSpare;
    OneCall(r, FlowCall(Cancel, "queue_overload"));
    assert [FlowCall(Cancel, "queue_overload")][0].action == Cancel;
  }

  lemma StepOfTick(bal: State, r: Roster, now: int)
    ensures var h := OneHub(bal, r);
            var o := TickLink(CONFIG, Link(SLOW, bal), r, 50, 0, now);
            var e := TickEv(0, 50, 0, now);
            Step(CONFIG, h, e) == OneHub(o.bal, o.roster) && Spares(CONFIG, h, e) == o.spared
  {
    hide TickLink;
  }

  lemma SparedStep(f: Frame)
    requires |f| == 60
    ensures var h1 := OneHub(State([f], None, None, 0, 100), TwoUsers());
            var e := TickEv(0, 50, 0, 200);
            Step(CONFIG, h1, e) == OneHub(State([], Pause, Cancel, 0, 0), OneLeaving()) && Spares(CONFIG, h1, e)
  {
    hide *;
    FreshStay();
    OverdueTick(f, None, 100);
    CancelLeavesOne();
    SparedTick(Link(SLOW, State([f], None, None, 0, 100)), TwoUsers(), 200);
    StepOfTick(State([f], None, None, 0, 100), TwoUsers(), 200);
  }

  lemma FourEvents(cfg: Config, h: Hub, a: Event, b: Event, c: Event, d: Event)
    ensures var events := [a, b, c, d];
            && Run(cfg, h, events[..0]) == h && Run(cfg, h, events[..1]) == Step(cfg, h, a)
            && Run(cfg, h, events[..2]) == Step(cfg, Step(cfg, h, a), b)
            && Run(cfg, h, events[..3]) == Step(cfg, Step(cfg, Step(cfg, h, a), b), c)
  {
    hide Step;
    var events := [a, b, c, d];
    assert events[..1][..0] == [] && events[..2][..1] == events[..1] && events[..3][..2] == events[..2];
  }

  lemma RemainingStays(r: Roster)
    requires r.info == OneLeaving().info - {2}
    ensures NobodyLeaving(r)
  {
  }

  lemma FreshStay()
    ensures WouldSpare(TwoUsers()) && NobodyLeaving(TwoUsers()) && Collected(TwoUsers()) != {} && Productive(TwoUsers())
  {
    BothCollected(TwoUsers());
    PromptSparesProductive(TwoUsers());
  }

  lemma PromptOfFour(cfg: Config, h: Hub, events: seq<Event>)
    requires |events| == 4 && events[2].GoneEv?
    requires var h1 := Step(cfg, h, events[0]);
             var h2 := Step(cfg, h1, events[1]);
             NobodyLeaving(h.roster) && NobodyLeaving(h1.roster) && NobodyLeaving(Step(cfg, h2, events[2]).roster)
    ensures Prompt(cfg, h, events)
  {
    hide Step, NobodyLeaving, Run;
    FourEvents(cfg, h, events[0], events[1], events[2], events[3]);
    assert events == [events[0], events[1], events[2], events[3]];
  }

  /** A run whose first event spares nothing and whose second spares a cancel at somebody's cost. */
  lemma CountOfTwo(cfg: Config, h: Hub, a: Event, b: Event)
    requires var h1 := Step(cfg, h, a);
             !Spares(cfg, h, a) && Spares(cfg, h1, b) && Collected(h1.roster) != {} && Productive(h1.roster)
    ensures SpareCount(cfg, h, [a, b], true) == 1
  {
    hide Step, Spares, Productive, Collected;
    assert [a, b][..1] == [a] && [a][..0] == [];
    assert SpareCount(cfg, h, [a], true) == 0;
    assert Run(cfg, h, [a]) == Step(cfg, h, a);
  }

  /** The hypothesis of promptness is met by this run, which spares a cancel and goes on when the user has departed. */
  lemma PromptRunGoesOn(f: Frame)
    requires |f| == 60
    ensures var events := SpareAndDeparture(f);
            var h := OneHub(INIT, TwoUsers());
            && Prompt(CONFIG, h, events) && SpareCount(CONFIG, h, events[..2], true) == 1
            && Run(CONFIG, h, events[..3]).roster.info.Keys == {1}
  {
    var h := OneHub(INIT, TwoUsers());
    var h2 := OneHub(State([], Pause, Cancel, 0, 0), OneLeaving());
    var a, b := SubmitEv(0, f, Ok, 100), TickEv(0, 50, 0, 200);
    var events := SpareAndDeparture(f);
    assert events == [a, b, GoneEv(2), TickEv(0, 50, 1, 201)] && events[..2] == [a, b];
    assert Step(CONFIG, h2, GoneEv(2)).roster.info == OneLeaving().info - {2};
    assert (OneLeaving().info - {2}).Keys == {1};
    hide *;
    FourEvents(CONFIG, h, a, b, GoneEv(2), TickEv(0, 50, 1, 201));
    QueuedStep(f);
    SparedStep(f);
    FreshStay();
    RemainingStays(Step(CONFIG, h2, GoneEv(2)).roster);
    PromptOfFour(CONFIG, h, events);
    CountOfTwo(CONFIG, h, a, b);
  }

  // ---------- without promptness there is no bound ----------

  /** The hub after that spare: nothing queued, the newer user leaving but not gone. */
  function Lingering(): Hub {
    OneHub(State([], Pause, Cancel, 0, 0), OneLeaving())
  }

  lemma ResumeChangesNothing()
    ensures Apply(OneLeaving(), Resume).0 == OneLeaving()
  {
    BothCollected(OneLeaving());
    assert SetPaused(OneLeaving().info, {1, 2}, false) == OneLeaving().info;
  }

  lemma LingeringSubmit(f: Frame, t: int)
    requires |f| == 60 && t > 0
    ensures var e := SubmitEv(0, f, Ok, t);
            Step(CONFIG, Lingering(), e) == OneHub(State([f], None, Resume, 0, t), OneLeaving()) && !Spares(CONFIG, Lingering(), e)
  {
    var s := State([], Pause, Cancel, 0, 0);
    var resumed := FlowCall(Resume, "stabilized");
    assert [f][1..] == [] && TotalBytes([f]) == 60 && [] + [f] == [f];
    assert Escalate(CONFIG, SLOW, State([f], Pause, Cancel, 0, t), t, true) == (State([f], None, Resume, 0, t), [resumed]);
    assert Escalate(CONFIG, SLOW, State([f], Pause, Cancel, 0, t), t, false) == (State([f], None, Resume, 0, t), [resumed]);
    hide Escalate, WouldSpare, Apply, OneLeaving;
    assert Submit(CONFIG, SLOW, s, f, Ok, t, WouldSpare(OneLeaving())) == SubmitOutcome(State([f], None, Resume, 0, t), Ok, [], [resumed]);
    OneCall(OneLeaving(), resumed);
    ResumeChangesNothing();
  }

  lemma LingeringFacts()
    ensures var r := OneLeaving();
            WouldSpare(r) && Collected(r) != {} && !Productive(r) && Apply(r, Cancel).0 == r
  {
    IdleSpareExists(INIT);
  }

  lemma LingeringTick(f: Frame, t: int)
    requires |f| == 60 && t > 0
    ensures var h1 := OneHub(State([f], None, Resume, 0, t), OneLeaving());
            var e := TickEv(0, 50, 0, t + 100);
            Step(CONFIG, h1, e) == Lingering() && Spares(CONFIG, h1, e)
  {
    assert Lingering() == OneHub(State([], Pause, Cancel, 0, 0), OneLeaving());
    hide *;
    LingeringFacts();
    OverdueTick(f, Resume, t);
    SparedTick(Link(SLOW, State([f], None, Resume, 0, t)), OneLeaving(), t + 100);
    StepOfTick(State([f], None, Resume, 0, t), OneLeaving(), t + 100);
  }

  /** Again and again a frame is queued and found a hundred seconds later. */
  function Overdue(f: Frame, n: nat): seq<Event> {
    if n == 0 then [] else Overdue(f, n - 1) + [SubmitEv(0, f, Ok, 200 * n), TickEv(0, 50, 0, 200 * n + 100)]
  }

  lemma TwoMore(cfg: Config, h: Hub, events: seq<Event>, a: Event, b: Event)
    ensures var h0 := Run(cfg, h, events);
            var h1 := Step(cfg, h0, a);
            && Run(cfg, h, events + [a, b]) == Step(cfg, h1, b)
            && (!Spares(cfg, h0, a) && Spares(cfg, h1, b) && Collected(h1.roster) != {} && !Productive(h1.roster) ==>
                  SpareCount(cfg, h, events + [a, b], false) == SpareCount(cfg, h, events, false) + 1)
  {
    hide Step, Spares, Productive, Collected;
    var all := events + [a, b];
    var n := |events|;
    assert all[..n + 1][..n] == events && all[..n + 1][n] == a && all[..|all| - 1] == all[..n + 1];
  }

  lemma IdleRound(f: Frame, t: int, events: seq<Event>)
    requires |f| == 60 && t > 0 && Run(CONFIG, Lingering(), events) == Lingering()
    ensures var more := events + [SubmitEv(0, f, Ok, t), TickEv(0, 50, 0, t + 100)];
            && Run(CONFIG, Lingering(), more) == Lingering()
            && SpareCount(CONFIG, Lingering(), more, false) == SpareCount(CONFIG, Lingering(), events, false) + 1
  {
    hide *;
    LingeringSubmit(f, t);
    LingeringTick(f, t);
    LingeringFacts();
    TwoMore(CONFIG, Lingering(), events, SubmitEv(0, f, Ok, t), TickEv(0, 50, 0, t + 100));
  }

  lemma {:induction false} IdleRounds(f: Frame, n: nat)
    requires |f| == 60
    ensures Run(CONFIG, Lingering(), Overdue(f, n)) == Lingering() && SpareCount(CONFIG, Lingering(), Overdue(f, n), false) == n
    decreases n
  {
    hide Run, SpareCount, Lingering, CONFIG;
    if n == 0 {
      NothingSpared(Lingering());
    } else {
      IdleRounds(f, n - 1);
      IdleRound(f, 200 * n, Overdue(f, n - 1));
    }
  }

  /**
   As long as the user lingers, every round spares a cancel and disconnects
   nobody: no number of users bounds that.  And a fresh hub gets there.
   */
  lemma IdleSparesUnbounded(f: Frame, n: nat)
    requires |f| == 60
    ensures Run(CONFIG, OneHub(INIT, TwoUsers()), SpareAndDeparture(f)[..2]) == Lingering()
    ensures SpareCount(CONFIG, Lingering(), Overdue(f, n), false) == n
  {
    hide *;
    LingeringReached(f);
    IdleRounds(f, n);
  }

  lemma NothingSpared(h: Hub)
    ensures Run(CONFIG, h, []) == h && SpareCount(CONFIG, h, [], false) == 0
  {
  }

  lemma LingeringReached(f: Frame)
    requires |f| == 60
    ensures Lingering() == Run(CONFIG, OneHub(INIT, TwoUsers()), SpareAndDeparture(f)[..2])
  {
    var events := SpareAndDeparture(f);
    assert events == [events[0], events[1], events[2], events[3]];
    hide Step, Run, OneLeaving, TwoUsers;
    FourEvents(CONFIG, OneHub(INIT, TwoUsers()), events[0], events[1], events[2], events[3]);
    QueuedStep(f);
    SparedStep(f);
  }
}
