/** One step of a link thread, in place: tick the balancer, then settle who pays for it. */
module LinkHub {
  import opened Balance
  import opened BandwidthPolicy
  import opened BalanceRing
  import opened PolicyService
  import LinkGuard

  /** What the flow callback does to the users, call by call. */
  method TurnOnUsers(svc: Service, flow: seq<FlowCall>)
    requires svc.Valid()
    modifies svc.sessions
    ensures svc.Valid() && svc.View() == LinkGuard.FlowEffects(old(svc.View()), flow)
  {
    hide *;
    ghost var r := svc.View();
    EffectsNone(r, flow);
    var i := 0;
    while i < |flow|
      invariant 0 <= i <= |flow|
      invariant svc.Valid() && svc.View() == LinkGuard.FlowEffects(r, flow[..i])
    {
      EffectsNext(r, flow, i);
      var n := svc.Apply(flow[i].action);
      i := i + 1;
    }
    assert flow[..i] == flow;
  }

  lemma EffectsNone(r: Roster, flow: seq<FlowCall>)
    ensures LinkGuard.FlowEffects(r, flow[..0]) == r
  {
  }

  lemma EffectsNext(r: Roster, flow: seq<FlowCall>, i: nat)
    requires i < |flow|
    ensures LinkGuard.FlowEffects(r, flow[..i + 1]) == Apply(LinkGuard.FlowEffects(r, flow[..i]), flow[i].action).0
  {
    assert flow[..i + 1][..i] == flow[..i];
    hide Apply;
  }

  method SpareLink(bal: Balancer, svc: Service, action: Action) returns (spared: bool)
    requires bal.Valid() && svc.Valid()
    modifies bal, svc.sessions
    ensures bal.Valid() && svc.Valid() && bal.profile == old(bal.profile)
    ensures (svc.View(), bal.View(), spared) == LinkGuard.SpareLink(old(svc.View()), old(bal.View()), action)
  {
    hide *;
    ghost var r := svc.View();
    ghost var s := bal.View();
    SpareMeaning(r, s, action);
    var users := svc.UserCount();
    if users == 0 {
      return false;
    }
    var affected := svc.Apply(action);
    assert bal.View() == s;
    if affected == 0 {
      return false;
    }
    bal.SparedCancel();
    spared := true;
  }

  lemma SpareMeaning(r: Roster, s: State, action: Action)
    ensures LinkGuard.SpareLink(r, s, action) ==
            if |Collected(r)| == 0 then (r, s, false)
            else if Apply(r, action).1 == 0 then (Apply(r, action).0, s, false)
            else (Apply(r, action).0, Balance.SparedCancel(s), true)
  {
  }

  method TickSlot(bal: Balancer, svc: Service, pollMs: nat, sendOks: nat, now: int) returns (cancelLink: bool)
    requires bal.Valid() && svc.Valid()
    modifies bal, svc.sessions
    ensures bal.Valid() && svc.Valid() && bal.profile == old(bal.profile)
    ensures var o := LinkGuard.TickLink(bal.cfg, LinkGuard.Link(bal.profile, old(bal.View())), old(svc.View()), pollMs, sendOks, now);
            bal.View() == o.bal && svc.View() == o.roster && cancelLink == o.cancelled
  {
    hide *;
    ghost var r := svc.View();
    ghost var s := bal.View();
    TickMeaning(bal.cfg, LinkGuard.Link(bal.profile, s), r, pollMs, sendOks, now);
    cancelLink := false;
    // The callback runs inside the tick; whether it can spare is settled by the users as they are now.
    var users := svc.UserCount();
    SpareBySize(r);
    var result, wire, flow := bal.Tick(pollMs, sendOks, now, users >= 2);
    ghost var o := Tick(bal.cfg, bal.profile, s, pollMs, sendOks, now, LinkGuard.WouldSpare(r));
    TickFields(bal.View(), result, wire, flow);
    assert svc.View() == r;
    TurnOnUsers(svc, flow);
    assert bal.View() == o.next;
    BalView(bal);
    if bal.profile.low && bal.cfg.enabled && bal.action == Pause && bal.queueBytes >= bal.cfg.queuePause {
      ghost var r1 := svc.View();
      SparePause(r1, o.next);
      var spared := SpareLink(bal, svc, Pause);
    }
    if result == CancelLink {
      var spared := SpareLink(bal, svc, Cancel);
      cancelLink := !spared;
    }
  }

  lemma SpareBySize(r: Roster)
    ensures LinkGuard.WouldSpare(r) <==> |Collected(r)| >= 2
  {
  }

  lemma SparePause(r: Roster, s: State)
    requires s.action == Pause
    ensures LinkGuard.SpareLink(r, s, Pause).1 == s
  {
  }

  lemma TickFields(next: State, result: TickResult, wire: seq<Balance.Frame>, flow: seq<FlowCall>)
    ensures var o := TickOutcome(next, result, wire, flow); o.next == next && o.result == result && o.flow == flow
  {
  }

  lemma BalView(bal: Balancer)
    requires bal.Valid()
    ensures bal.View().action == bal.action && TotalBytes(bal.View().queue) == bal.queueBytes
  {
  }

  lemma TickMeaning(cfg: Config, l: LinkGuard.Link, r: Roster, pollMs: nat, sendOks: nat, now: int)
    ensures var o := Tick(cfg, l.profile, l.bal, pollMs, sendOks, now, LinkGuard.WouldSpare(r));
            var r1 := LinkGuard.FlowEffects(r, o.flow);
            var pressed := l.profile.low && cfg.enabled && o.next.action == Pause && TotalBytes(o.next.queue) >= cfg.queuePause;
            var r2 := if pressed then LinkGuard.SpareLink(r1, o.next, Pause).0 else r1;
            var t := LinkGuard.TickLink(cfg, l, r, pollMs, sendOks, now);
            if o.result == CancelLink then
              var (r3, s3, spared) := LinkGuard.SpareLink(r2, o.next, Cancel);
              t.bal == s3 && t.roster == r3 && t.cancelled == !spared
            else
              t.bal == o.next && t.roster == r2 && !t.cancelled
  {
  }
}
