/** The links that can carry a beacon, in the order in which a cycle sends to them. */
module BroadcastLinks {
  import opened HubSlots

  datatype Link = Link(mhz: real, slotIndex: nat, linkId: string)

  /** Byte-wise string order. */
  predicate LexLess(a: string, b: string) {
    if b == "" then false
    else if a == "" then true
    else a[0] < b[0] || (a[0] == b[0] && LexLess(a[1..], b[1..]))
  }

  /** Links of unknown frequency first, by id; then the others by rising frequency. */
  predicate Less(a: Link, b: Link) {
    if a.mhz > 0.0 then b.mhz > 0.0 && a.mhz < b.mhz
    else b.mhz > 0.0 || LexLess(a.linkId, b.linkId)
  }

  predicate Qualifies(s: Slot) {
    s.state == Active && s.fd >= 0 && s.qos
  }

  /** The qualifying slots before n, in slot order. */
  function Qualifying(slots: Slots, n: nat): (links: seq<Link>)
    requires n <= |slots|
    ensures |links| <= n
    ensures forall i | 0 <= i < |links| ::
              var k := links[i].slotIndex; k < n && Qualifies(slots[k]) && links[i] == Link(slots[k].mhz, k, slots[k].linkId)
    ensures forall i, j | 0 <= i < j < |links| :: links[i].slotIndex < links[j].slotIndex
    ensures forall k | 0 <= k < n && Qualifies(slots[k]) :: Link(slots[k].mhz, k, slots[k].linkId) in links
  {
    if n == 0 then []
    else Qualifying(slots, n - 1) + (if Qualifies(slots[n - 1]) then [Link(slots[n - 1].mhz, n - 1, slots[n - 1].linkId)] else [])
  }

  function InsertInto(sorted: seq<Link>, key: Link): seq<Link> {
    var n := |sorted|;
    if n == 0 || !Less(key, sorted[n - 1]) then sorted + [key]
    else InsertInto(sorted[..n - 1], key) + [sorted[n - 1]]
  }

  function Arranged(links: seq<Link>): seq<Link> {
    if links == [] then [] else InsertInto(Arranged(links[..|links| - 1]), links[|links| - 1])
  }

  /** The snapshot that a beacon cycle works through. */
  function Snapshot(slots: Slots): seq<Link> {
    Arranged(Qualifying(slots, |slots|))
  }

  // ---------- the arrangement is a sorted permutation ----------

  ghost predicate Sorted(links: seq<Link>) {
    forall i, j | 0 <= i < j < |links| :: !Less(links[j], links[i])
  }

  lemma {:induction false} LexWeak(a: string, b: string, c: string)
    requires !LexLess(a, b) && !LexLess(b, c)
    ensures !LexLess(a, c)
  {
    if a != "" && b != "" && c != "" && a[0] == b[0] == c[0] {
      LexWeak(a[1..], b[1..], c[1..]);
    }
  }

  lemma LessWeak(a: Link, b: Link, c: Link)
    requires !Less(a, b) && !Less(b, c)
    ensures !Less(a, c)
  {
    if !LexLess(a.linkId, b.linkId) && !LexLess(b.linkId, c.linkId) {
      LexWeak(a.linkId, b.linkId, c.linkId);
    }
  }

  lemma {:induction false} LexAsymmetric(a: string, b: string)
    requires LexLess(a, b)
    ensures !LexLess(b, a)
  {
    if a != "" && a[0] == b[0] {
      LexAsymmetric(a[1..], b[1..]);
    }
  }

  lemma LessAsymmetric(a: Link, b: Link)
    requires Less(a, b)
    ensures !Less(b, a)
  {
    if LexLess(a.linkId, b.linkId) {
      LexAsymmetric(a.linkId, b.linkId);
    }
  }

  lemma {:induction false} InsertSorts(sorted: seq<Link>, key: Link)
    requires Sorted(sorted)
    ensures Sorted(InsertInto(sorted, key))
    ensures multiset(InsertInto(sorted, key)) == multiset(sorted) + multiset{key}
  {
    var n := |sorted|;
    if n == 0 {
    } else if !Less(key, sorted[n - 1]) {
      forall i | 0 <= i < n ensures !Less(key, sorted[i]) {
        if i < n - 1 {
          LessWeak(key, sorted[n - 1], sorted[i]);
        }
      }
    } else {
      var last := sorted[n - 1];
      InsertSorts(sorted[..n - 1], key);
      var front := InsertInto(sorted[..n - 1], key);
      assert sorted == sorted[..n - 1] + [last];
      forall i | 0 <= i < |front| ensures !Less(last, front[i]) {
        assert front[i] in multiset(front);
        if front[i] == key {
          LessAsymmetric(key, last);
        } else {
          assert front[i] in sorted[..n - 1];
        }
      }
    }
  }

  lemma SameSize(a: seq<Link>, b: seq<Link>)
    requires multiset(a) == multiset(b)
    ensures |a| == |b|
  {
    assert |a| == |multiset(a)| && |b| == |multiset(b)|;
  }

  /** Sorted by frequency (unknown first, those by id), with exactly the links given. */
  lemma {:induction false} ArrangedSorted(links: seq<Link>)
    ensures Sorted(Arranged(links)) && multiset(Arranged(links)) == multiset(links)
    ensures |Arranged(links)| == |links|
  {
    if links != [] {
      var n := |links| - 1;
      ArrangedSorted(links[..n]);
      InsertSorts(Arranged(links[..n]), links[n]);
      assert links == links[..n] + [links[n]];
      hide InsertInto, Sorted;
    }
    SameSize(Arranged(links), links);
  }

  ghost predicate DistinctSlots(links: seq<Link>) {
    forall i, j | 0 <= i < j < |links| :: links[i].slotIndex != links[j].slotIndex
  }

  lemma {:induction false} InsertDistinct(sorted: seq<Link>, key: Link)
    requires DistinctSlots(sorted) && forall i | 0 <= i < |sorted| :: sorted[i].slotIndex != key.slotIndex
    ensures DistinctSlots(InsertInto(sorted, key))
    ensures forall l :: l in InsertInto(sorted, key) <==> l in sorted || l == key
  {
    var n := |sorted|;
    if n > 0 && Less(key, sorted[n - 1]) {
      InsertDistinct(sorted[..n - 1], key);
      assert sorted == sorted[..n - 1] + [sorted[n - 1]];
      forall l | l in InsertInto(sorted[..n - 1], key) ensures l.slotIndex != sorted[n - 1].slotIndex {
        assert l in sorted[..n - 1] || l == key;
      }
    }
  }

  lemma {:induction false} ArrangedDistinct(links: seq<Link>)
    requires DistinctSlots(links)
    ensures DistinctSlots(Arranged(links)) && forall l :: l in Arranged(links) <==> l in links
  {
    if links != [] {
      var n := |links| - 1;
      FrontDistinct(links);
      ArrangedDistinct(links[..n]);
      hide DistinctSlots, InsertInto;
      assert Arranged(links) == InsertInto(Arranged(links[..n]), links[n]);
      hide Arranged;
      assert forall i | 0 <= i < |Arranged(links[..n])| :: Arranged(links[..n])[i] in links[..n];
      InsertDistinct(Arranged(links[..n]), links[n]);
    }
  }

  lemma FrontDistinct(links: seq<Link>)
    requires DistinctSlots(links) && links != []
    ensures var n := |links| - 1;
            && DistinctSlots(links[..n]) && (forall l | l in links[..n] :: l.slotIndex != links[n].slotIndex)
            && (forall l :: l in links <==> l in links[..n] || l == links[n])
  {
    assert links == links[..|links| - 1] + [links[|links| - 1]];
  }

  /** A snapshot lists each qualifying slot exactly once. */
  lemma SnapshotExact(slots: Slots)
    ensures DistinctSlots(Snapshot(slots)) && Sorted(Snapshot(slots))
    ensures forall i | 0 <= i < |Snapshot(slots)| ::
              var l := Snapshot(slots)[i]; l.slotIndex < |slots| && Qualifies(slots[l.slotIndex]) && l.linkId == slots[l.slotIndex].linkId && l.mhz == slots[l.slotIndex].mhz
    ensures forall k | 0 <= k < |slots| && Qualifies(slots[k]) :: Link(slots[k].mhz, k, slots[k].linkId) in Snapshot(slots)
  {
    var q := Qualifying(slots, |slots|);
    ArrangedSorted(q);
    ArrangedDistinct(q);
    assert forall i | 0 <= i < |Snapshot(slots)| :: Snapshot(slots)[i] in q;
  }

  /** The insertion sort of the hub, in place. */
  method SortLinks(links: array<Link>)
    modifies links
    ensures links[..] == Arranged(old(links[..]))
  {
    ghost var was := links[..];
    if links.Length == 0 {
      return;
    }
    ArrangedOne(was);
    hide Arranged, InsertInto;
    var i := 1;
    while i < links.Length
      invariant 1 <= i <= links.Length
      invariant links[..] == Arranged(was[..i]) + was[i..]
    {
      ArrangedNext(was, i);
      InsertInPlace(links, i, Arranged(was[..i]), was[i..]);
      assert was[i..][1..] == was[i + 1..];
      i := i + 1;
    }
    assert was[..i] == was && was[i..] == [];
  }

  lemma ArrangedOne(links: seq<Link>)
    requires links != []
    ensures Arranged(links[..1]) + links[1..] == links
  {
    assert links[..1][..0] == [];
    assert Arranged([]) == [];
  }

  lemma ArrangedNext(links: seq<Link>, i: nat)
    requires i < |links|
    ensures Arranged(links[..i + 1]) == InsertInto(Arranged(links[..i]), links[i]) && |Arranged(links[..i])| == i
  {
    assert links[..i + 1][..i] == links[..i];
    ArrangedSorted(links[..i]);
    hide InsertInto;
  }

  lemma InsertPeel(done: seq<Link>, key: Link, j: nat)
    requires j <= |done|
    ensures j == 0 || !Less(key, done[j - 1]) ==> InsertInto(done[..j], key) == done[..j] + [key]
    ensures j > 0 && Less(key, done[j - 1]) ==>
              InsertInto(done[..j], key) + done[j..] == InsertInto(done[..j - 1], key) + done[j - 1..]
  {
    if j > 0 {
      assert done[..j][..j - 1] == done[..j - 1];
      assert done[j - 1..] == [done[j - 1]] + done[j..];
    }
  }

  method InsertInPlace(links: array<Link>, i: nat, ghost done: seq<Link>, ghost rest: seq<Link>)
    requires i < links.Length && |done| == i && rest != [] && links[..] == done + rest
    modifies links
    ensures links[..] == InsertInto(done, rest[0]) + rest[1..]
  {
    hide InsertInto, Less;
    var key := links[i];
    assert done[..i] == done && done + [] == done && InsertInto(done, key) + [] == InsertInto(done, key);
    var j := i;
    while j > 0 && Less(key, links[j - 1])
      invariant 0 <= j <= i
      invariant forall k | 0 <= k < j :: links[k] == done[k]
      invariant forall k | j < k <= i :: links[k] == done[k - 1]
      invariant forall k | i < k < links.Length :: links[k] == rest[k - i]
      invariant InsertInto(done, key) == InsertInto(done[..j], key) + done[j..]
    {
      InsertPeel(done, key, j);
      links[j] := links[j - 1];
      j := j - 1;
    }
    InsertPeel(done, key, j);
    links[j] := key;
    Inserted(links[..], done, key, rest, j);
  }

  lemma Inserted(links: seq<Link>, done: seq<Link>, key: Link, rest: seq<Link>, j: nat)
    requires j <= |done| && rest != [] && |links| == |done| + |rest|
    requires forall k | 0 <= k < j :: links[k] == done[k]
    requires links[j] == key && forall k | j < k <= |done| :: links[k] == done[k - 1]
    requires forall k | |done| < k < |links| :: links[k] == rest[k - |done|]
    ensures links == done[..j] + [key] + done[j..] + rest[1..]
  {
  }

  // ---------- what the order is ----------

  /** The place where two strings in byte-wise order part. */
  lemma {:induction false} LexParts(a: string, b: string) returns (k: nat)
    requires LexLess(a, b)
    ensures k <= |a| && k < |b| && a[..k] == b[..k] && (k == |a| || a[k] < b[k])
  {
    k := 0;
    if a != "" && a[0] == b[0] {
      k := LexParts(a[1..], b[1..]);
      assert a[..k + 1] == [a[0]] + a[1..][..k] && b[..k + 1] == [b[0]] + b[1..][..k];
      k := k + 1;
    }
  }

  lemma {:induction false} LexFrom(a: string, b: string, k: nat)
    requires k <= |a| && k < |b| && a[..k] == b[..k] && (k == |a| || a[k] < b[k])
    ensures LexLess(a, b)
  {
    if k > 0 {
      assert a[0] == a[..k][0] == b[..k][0] == b[0];
      assert a[1..][..k - 1] == a[..k][1..] && b[1..][..k - 1] == b[..k][1..];
      LexFrom(a[1..], b[1..], k - 1);
    }
  }

  /** A snapshot lists exactly the active, connected slots with the profile; unknown frequencies first, by id, then by rising frequency. */
  lemma SnapshotOrder(slots: Slots)
    ensures forall k | 0 <= k < |slots| ::
              (exists i :: 0 <= i < |Snapshot(slots)| && Snapshot(slots)[i].slotIndex == k) <==>
              slots[k].state == Active && slots[k].fd >= 0 && slots[k].qos
    ensures forall i, j | 0 <= i < j < |Snapshot(slots)| ::
              var (a, b) := (Snapshot(slots)[i], Snapshot(slots)[j]);
              && (a.mhz > 0.0 ==> b.mhz >= a.mhz)
              && (a.mhz <= 0.0 && b.mhz <= 0.0 ==> !LexLess(b.linkId, a.linkId))
  {
    SnapshotExact(slots);
    var links := Snapshot(slots);
    forall k | 0 <= k < |slots|
      ensures (exists i :: 0 <= i < |links| && links[i].slotIndex == k) <==> slots[k].state == Active && slots[k].fd >= 0 && slots[k].qos
    {
      if Qualifies(slots[k]) {
        assert Link(slots[k].mhz, k, slots[k].linkId) in links;
      }
    }
    hide Snapshot, LexLess;
    forall i, j | 0 <= i < j < |links|
      ensures (links[i].mhz > 0.0 ==> links[j].mhz >= links[i].mhz)
      ensures links[i].mhz <= 0.0 && links[j].mhz <= 0.0 ==> !LexLess(links[j].linkId, links[i].linkId)
    {
      assert !Less(links[j], links[i]);
    }
  }
}
