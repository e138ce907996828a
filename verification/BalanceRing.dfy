/**
 The load balancer as it is kept in memory: a 64-slot ring of frames with a
 running byte count, updated in place.  Each method is proved to do what the
 function of the same name in module Balance does to the queue of frames.
 */
module BalanceRing {
  import opened Bytes
  import B = Balance
  import BalanceRuns

  type Frame = B.Frame

  /** The frames of a ring, oldest first. */
  ghost function RingSeq(buf: seq<Frame>, head: nat, count: nat): (q: seq<Frame>)
    requires |buf| == B.QUEUE_MAX && head < B.QUEUE_MAX && count <= B.QUEUE_MAX
    ensures |q| == count && forall i | 0 <= i < count :: q[i] == buf[(head + i) % B.QUEUE_MAX]
  {
    seq(count, i requires 0 <= i < count => buf[(head + i) % B.QUEUE_MAX])
  }

  /** Writing behind the last frame appends, even across the wrap. */
  lemma RingAppend(buf: seq<Frame>, head: nat, count: nat, frame: Frame)
    requires |buf| == B.QUEUE_MAX && head < B.QUEUE_MAX && count < B.QUEUE_MAX
    ensures RingSeq(buf[(head + count) % B.QUEUE_MAX := frame], head, count + 1) == RingSeq(buf, head, count) + [frame]
  {
  }

  /** Advancing the head drops the oldest frame, even across the wrap. */
  lemma RingAdvance(buf: seq<Frame>, head: nat, count: nat)
    requires |buf| == B.QUEUE_MAX && head < B.QUEUE_MAX && 0 < count <= B.QUEUE_MAX
    ensures RingSeq(buf, (head + 1) % B.QUEUE_MAX, count - 1) == RingSeq(buf, head, count)[1..]
  {
  }

  lemma AppendedBytes(q: seq<Frame>, frame: Frame)
    ensures B.TotalBytes(q + [frame]) == B.TotalBytes(q) + |frame|
  {
    BalanceRuns.TotalBytesAppend(q, [frame]);
    assert [frame][1..] == [];
  }

  lemma DrainStep(q: seq<Frame>, budget: nat, sendOks: nat)
    requires q != []
    ensures B.DrainCount(q, budget, sendOks) ==
            if sendOks == 0 || |q[0]| > budget then 0 else 1 + B.DrainCount(q[1..], budget - |q[0]|, sendOks - 1)
  {
  }

  lemma SplitHead(q: seq<Frame>, done: seq<Frame>, rest: seq<Frame>)
    requires q == done + rest && rest != []
    ensures q == done + [rest[0]] + rest[1..]
  {
  }

  lemma DrainStops(q: seq<Frame>, budget: nat, sendOks: nat)
    requires q == [] || (budget == 0 && |q[0]| > 0)
    ensures B.DrainCount(q, budget, sendOks) == 0
  {
  }

  class Balancer {
    const cfg: B.Config
    const queue: array<Frame>
    var profile: B.Profile
    var qHead: nat
    var qCount: nat
    var queueBytes: nat
    var action: B.Action
    var lastSent: B.Action
    var drainAccum: nat
    var oldestEnqueue: int

    ghost predicate Valid()
      reads this, queue
    {
      && queue.Length == B.QUEUE_MAX && qHead < B.QUEUE_MAX && qCount <= B.QUEUE_MAX
      && queueBytes == B.TotalBytes(Contents())
      && forall i | 0 <= i < qCount :: 1 <= |Contents()[i]| <= B.MAX_FRAME
    }

    ghost function Contents(): seq<Frame>
      requires queue.Length == B.QUEUE_MAX && qHead < B.QUEUE_MAX && qCount <= B.QUEUE_MAX
      reads this, queue
    {
      RingSeq(queue[..], qHead, qCount)
    }

    ghost function View(): B.State
      requires Valid()
      reads this, queue
    {
      B.State(Contents(), action, lastSent, drainAccum, oldestEnqueue)
    }

    constructor (cfg: B.Config)
      ensures Valid() && fresh(queue) && this.cfg == cfg
      ensures View() == B.INIT && profile == B.Profile(false, B.DEFAULT_BAUD)
    {
      this.cfg := cfg;
      queue := new Frame[B.QUEUE_MAX](_ => []);
      profile := B.Profile(false, B.DEFAULT_BAUD);
      qHead, qCount, queueBytes := 0, 0, 0;
      action, lastSent := B.None, B.None;
      drainAccum, oldestEnqueue := 0, 0;
    }

    method SetProfile(p: B.Profile)
      requires Valid()
      modifies this`profile
      ensures Valid() && View() == old(View()) && profile == p
    {
      profile := p;
    }

    method SparedCancel()
      requires Valid()
      modifies this`action, this`lastSent
      ensures Valid() && View() == B.SparedCancel(old(View()))
    {
      if action == B.Cancel {
        action := B.Pause;
        lastSent := B.None;
      }
    }

    method EstimatedLagSec(now: int) returns (lag: nat)
      requires Valid()
      ensures lag == B.EstimatedLag(profile, View(), now)
    {
      if queueBytes == 0 {
        return 0;
      }
      lag := (queueBytes * 8 / B.Baud(profile)) % B.UINT_MODULUS;
      if oldestEnqueue > 0 {
        if now > oldestEnqueue {
          var wall := (now - oldestEnqueue) % B.UINT_MODULUS;
          if wall > lag {
            lag := wall;
          }
        }
      }
    }

    method SendFlow(act: B.Action, reason: string, spare: bool) returns (flow: seq<B.FlowCall>)
      requires Valid()
      modifies this`action, this`lastSent
      ensures Valid() && (View(), flow) == B.SendFlow(old(View()), act, reason, spare)
    {
      if act == lastSent {
        return [];
      }
      // The callback runs here; it may come back to spare a cancel.
      flow := [B.FlowCall(act, reason)];
      if spare {
        SparedCancel();
      }
      lastSent := act;
    }

    method ClearQueue()
      requires Valid()
      modifies this`qHead, this`qCount, this`queueBytes, this`oldestEnqueue, this`drainAccum
      ensures Valid() && View() == B.ClearQueue(old(View()))
    {
      qHead, qCount, queueBytes := 0, 0, 0;
      oldestEnqueue, drainAccum := 0, 0;
    }

    method SetAction(act: B.Action)
      requires Valid()
      modifies this`action
      ensures Valid() && View() == old(View()).(action := act)
    {
      action := act;
    }

    lemma Fields()
      requires Valid()
      ensures View().action == action && B.TotalBytes(View().queue) == queueBytes
    {
    }

    method ApplyEscalation(now: int, spare: bool) returns (flow: seq<B.FlowCall>)
      requires Valid()
      modifies this
      ensures Valid() && profile == old(profile)
      ensures (View(), flow) == B.Escalate(cfg, profile, old(View()), now, spare)
    {
      hide RingSeq, Contents, View, Valid, B.TotalBytes, B.EstimatedLag, B.SendFlow;
      Fields();
      flow := [];
      if !cfg.enabled {
        return;
      }
      var lag := EstimatedLagSec(now);
      if profile.low && (queueBytes >= cfg.queueCancel || lag >= (cfg.lagSec * 2) % B.UINT_MODULUS) {
        if action != B.Cancel {
          SetAction(B.Cancel);
          ClearQueue();
          flow := SendFlow(B.Cancel, "queue_overload", spare);
        }
        return;
      }
      if queueBytes >= cfg.queueBreak || lag >= cfg.lagSec {
        if action != B.Break && action != B.Cancel {
          SetAction(B.Break);
          ClearQueue();
          flow := SendFlow(B.Break, "queue_lag", spare);
          SetAction(B.Pause);
          var more := SendFlow(B.Pause, "stabilize", spare);
          flow := flow + more;
        }
        return;
      }
      if queueBytes >= cfg.queuePause || lag >= B.HalfLag(cfg) {
        if action == B.None {
          SetAction(B.Pause);
          flow := SendFlow(B.Pause, "queue_pressure", spare);
        }
        return;
      }
      if action == B.Pause && queueBytes < cfg.queuePause / 2 && lag < B.HalfLag(cfg) {
        SetAction(B.None);
        flow := SendFlow(B.Resume, "stabilized", spare);
      }
    }

    method Enqueue(frame: Frame, now: int)
      requires Valid() && qCount < B.QUEUE_MAX && 1 <= |frame| <= B.MAX_FRAME
      modifies queue, this`qCount, this`queueBytes, this`oldestEnqueue
      ensures Valid() && View() == B.Enqueue(old(View()), frame, now)
    {
      hide RingSeq, B.TotalBytes;
      ghost var q := Contents();
      RingAppend(queue[..], qHead, qCount, frame);
      AppendedBytes(q, frame);
      ghost var was := queue[..];
      var slot := (qHead + qCount) % B.QUEUE_MAX;
      queue[slot] := frame;
      assert queue[..] == was[slot := frame];
      qCount := qCount + 1;
      assert Contents() == q + [frame];
      queueBytes := queueBytes + |frame|;
      if oldestEnqueue == 0 {
        oldestEnqueue := now;
      }
    }

    function Head(): (frame: Frame)
      requires Valid() && qCount > 0
      reads this, queue
      ensures frame == Contents()[0]
    {
      queue[qHead]
    }

    method Dequeue() returns (frame: Frame)
      requires Valid() && qCount > 0
      modifies this`qHead, this`qCount, this`queueBytes
      ensures Valid() && qCount == old(qCount) - 1
      ensures frame == old(Contents())[0] && Contents() == old(Contents())[1..] && 1 <= |frame|
    {
      RingAdvance(queue[..], qHead, qCount);
      ghost var q := Contents();
      frame := Head();
      assert q == [frame] + q[1..];
      assert B.TotalBytes(q) == |frame| + B.TotalBytes(q[1..]);
      hide RingSeq, B.TotalBytes;
      qHead := (qHead + 1) % B.QUEUE_MAX;
      qCount := qCount - 1;
      queueBytes := queueBytes - |frame|;
      assert Contents() == q[1..];
    }

    method Submit(frame: Frame, direct: B.Result, now: int, spare: bool)
      returns (result: B.Result, wire: seq<Frame>, flow: seq<B.FlowCall>)
      requires Valid()
      modifies this, queue
      ensures Valid() && profile == old(profile)
      ensures B.SubmitOutcome(View(), result, wire, flow) == B.Submit(cfg, profile, old(View()), frame, direct, now, spare)
    {
      wire, flow := [], [];
      if |frame| == 0 {
        result := B.Invalid;
        return;
      }
      if !cfg.enabled || !profile.low {
        result := direct;
        if direct == B.Ok {
          wire := [frame];
        }
        return;
      }
      if action == B.Cancel {
        result := B.Busy;
        return;
      }
      if qCount >= B.QUEUE_MAX {
        flow := ApplyEscalation(now, spare);
        result := if action == B.Cancel then B.Busy else B.NoMem;
        return;
      }
      if |frame| > B.MAX_FRAME {
        result := B.Invalid;
        return;
      }
      Enqueue(frame, now);
      flow := ApplyEscalation(now, spare);
      result := B.Ok;
    }

    lemma Filled()
      requires Valid()
      ensures queue.Length == B.QUEUE_MAX && qHead < B.QUEUE_MAX && qCount <= B.QUEUE_MAX
      ensures |Contents()| == qCount && (qCount > 0 ==> |Contents()[0]| > 0)
    {
    }

    /** The drain loop: `sendOks` calls of the transport succeed before one fails. */
    method SendWithin(allowance: nat, sendOks: nat) returns (wire: seq<Frame>)
      requires Valid()
      modifies this`qHead, this`qCount, this`queueBytes
      ensures Valid()
      ensures |wire| == B.DrainCount(old(Contents()), allowance, sendOks)
      ensures wire + Contents() == old(Contents())
    {
      hide *;
      Filled();
      var budget: nat := allowance;
      var left: nat := sendOks;
      ghost var q := Contents();
      ghost var rest := q;
      ghost var total := B.DrainCount(q, allowance, sendOks);
      wire := [];
      while budget > 0 && qCount > 0
        invariant queue.Length == B.QUEUE_MAX && qHead < B.QUEUE_MAX && qCount <= B.QUEUE_MAX
        invariant Valid() && Contents() == rest && |rest| == qCount && (qCount > 0 ==> |rest[0]| > 0)
        invariant q == wire + rest
        invariant total == |wire| + B.DrainCount(rest, budget, left)
        decreases qCount
      {
        DrainStep(rest, budget, left);
        if |Head()| > budget || left == 0 {
          return;
        }
        var entry := Dequeue();
        Filled();
        SplitHead(q, wire, rest);
        rest := rest[1..];
        budget := budget - |entry|;
        wire := wire + [entry];
        left := left - 1;
      }
      DrainStops(rest, budget, left);
    }

    method Drain(pollMs: nat, sendOks: nat) returns (wire: seq<Frame>)
      requires Valid() && qCount > 0
      modifies this`qHead, this`qCount, this`queueBytes, this`drainAccum, this`oldestEnqueue
      ensures Valid()
      ensures var (s, k) := B.Drained(profile, old(View()), pollMs, sendOks);
              View() == s && wire == old(Contents())[..k]
    {
      hide RingSeq, B.TotalBytes, B.DrainCount;
      ghost var q := Contents();
      drainAccum := drainAccum + B.PollUnits(profile, pollMs);
      var budget: nat := drainAccum / B.UNITS_PER_BYTE;
      drainAccum := drainAccum - budget * B.UNITS_PER_BYTE;
      wire := SendWithin(budget, sendOks);
      assert Contents() == q[|wire|..] && wire == q[..|wire|];
      if qCount == 0 {
        oldestEnqueue := 0;
      }
    }

    method Tick(pollMs: nat, sendOks: nat, now: int, spare: bool)
      returns (result: B.TickResult, wire: seq<Frame>, flow: seq<B.FlowCall>)
      requires Valid()
      modifies this
      ensures Valid() && profile == old(profile)
      ensures B.TickOutcome(View(), result, wire, flow) == B.Tick(cfg, profile, old(View()), pollMs, sendOks, now, spare)
    {
      wire, flow := [], [];
      if action == B.Cancel {
        result := B.CancelLink;
        return;
      }
      if !cfg.enabled || qCount == 0 {
        flow := ApplyEscalation(now, spare);
        result := B.TickOk;
        return;
      }
      if action != B.Pause {
        wire := Drain(pollMs, sendOks);
      }
      flow := ApplyEscalation(now, spare);
      result := if action == B.Cancel then B.CancelLink else B.TickOk;
    }
  }
}
