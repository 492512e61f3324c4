/**
 The partition allocator end to end: a spec lexed against the selected zone, the range checks of
 add_partition and add_gpt, and the sorted insertion of add_partition_inner (src/growlight.c).
 */
module Allocator {
  import opened Arithmetic
  import opened Devices
  import opened Zones
  import opened ZoneChain
  import opened PartSpec
  import opened Wrappers

  // ---- Sorted insertion ----

  /** Before the first partition that starts no earlier. */
  function Insert(parts: seq<Part>, p: Part): (r: seq<Part>)
    ensures |r| == |parts| + 1
  {
    if parts == [] || parts[0].first >= p.first then [p] + parts else [parts[0]] + Insert(parts[1..], p)
  }

  function InsertAll(found: seq<Part>): seq<Part> {
    if found == [] then [] else Insert(InsertAll(found[..|found| - 1]), found[|found| - 1])
  }

  predicate Sorted(parts: seq<Part>) {
    forall i, j :: 0 <= i < j < |parts| ==> parts[i].first <= parts[j].first
  }

  predicate DistinctStarts(parts: seq<Part>) {
    forall i, j :: 0 <= i < j < |parts| ==> parts[i].first != parts[j].first
  }

  lemma {:induction false} InsertAdds(parts: seq<Part>, p: Part)
    ensures multiset(Insert(parts, p)) == multiset(parts) + multiset{p}
  {
    if parts != [] && parts[0].first < p.first {
      InsertAdds(parts[1..], p);
      assert parts == [parts[0]] + parts[1..];
    }
  }

  lemma {:induction false} InsertMembers(parts: seq<Part>, p: Part, q: Part)
    requires q in Insert(parts, p)
    ensures q == p || q in parts
  {
    if parts != [] && parts[0].first < p.first && q != parts[0] {
      InsertMembers(parts[1..], p, q);
    }
  }

  lemma SortedCons(q: Part, rest: seq<Part>)
    requires Sorted(rest) && forall r :: r in rest ==> q.first <= r.first
    ensures Sorted([q] + rest)
  {
  }

  lemma {:induction false} InsertSorts(parts: seq<Part>, p: Part)
    requires Sorted(parts)
    ensures Sorted(Insert(parts, p))
  {
    if parts == [] || parts[0].first >= p.first {
      SortedCons(p, parts);
    } else {
      var rest := Insert(parts[1..], p);
      InsertSorts(parts[1..], p);
      forall r | r in rest
        ensures parts[0].first <= r.first
      {
        InsertMembers(parts[1..], p, r);
      }
      SortedCons(parts[0], rest);
    }
  }

  lemma {:induction false} InsertAllSorts(found: seq<Part>)
    ensures Sorted(InsertAll(found)) && multiset(InsertAll(found)) == multiset(found)
  {
    if found != [] {
      hide Insert, Sorted;
      var n := |found| - 1;
      InsertAllSorts(found[..n]);
      InsertSorts(InsertAll(found[..n]), found[n]);
      InsertAdds(InsertAll(found[..n]), found[n]);
      WithoutLast(found);
    }
  }

  lemma WithoutLast(a: seq<Part>)
    requires a != []
    ensures multiset(a) == multiset(a[..|a| - 1]) + multiset{a[|a| - 1]}
  {
    assert a == a[..|a| - 1] + [a[|a| - 1]];
  }

  lemma LowestFirst(a: seq<Part>, b: seq<Part>)
    requires Sorted(a) && Sorted(b) && multiset(a) == multiset(b) && a != [] && b != []
    ensures a[0].first == b[0].first && b[0] in a
  {
    assert a[0] in multiset(b);
    assert b[0] in multiset(a);
    var i :| 0 <= i < |a| && a[i] == b[0];
    var j :| 0 <= j < |b| && b[j] == a[0];
  }

  lemma WithoutHead(a: seq<Part>)
    requires a != []
    ensures multiset(a[1..]) == multiset(a) - multiset{a[0]}
  {
    assert a == [a[0]] + a[1..];
  }

  lemma SameTail(a: seq<Part>, b: seq<Part>)
    requires a != [] && b != [] && a[0] == b[0] && multiset(a) == multiset(b)
    ensures multiset(a[1..]) == multiset(b[1..])
  {
    WithoutHead(a);
    WithoutHead(b);
  }

  lemma {:induction false} SortedIsUnique(a: seq<Part>, b: seq<Part>)
    requires Sorted(a) && Sorted(b) && multiset(a) == multiset(b) && DistinctStarts(a)
    ensures a == b
  {
    hide Sorted, DistinctStarts;
    assert |multiset(a)| == |a| && |multiset(b)| == |b|;
    if a != [] {
      SameHead(a, b);
      SameTail(a, b);
      TailSorted(a);
      TailSorted(b);
      SortedIsUnique(a[1..], b[1..]);
      assert a == [a[0]] + a[1..] && b == [b[0]] + b[1..];
    }
  }

  lemma SameHead(a: seq<Part>, b: seq<Part>)
    requires Sorted(a) && Sorted(b) && multiset(a) == multiset(b) && DistinctStarts(a) && a != [] && b != []
    ensures a[0] == b[0]
  {
    LowestFirst(a, b);
  }

  lemma TailSorted(a: seq<Part>)
    requires Sorted(a) && a != []
    ensures Sorted(a[1..]) && (DistinctStarts(a) ==> DistinctStarts(a[1..]))
  {
  }

  /** A partition's directory in sysfs: whether its name fits, its number, first sector and size. */
  datatype Listing = Listing(nameFits: bool, pnum: nat, first: nat, size: nat)

  /** What add_partition_inner takes. */
  predicate Listable(q: Listing) {
    q.nameFits && q.pnum != 0 && q.size != 0
  }

  function FirstRefused(found: seq<Listing>): (n: nat)
    ensures n <= |found| && forall i :: 0 <= i < n ==> Listable(found[i])
    ensures n < |found| ==> !Listable(found[n])
  {
    if found == [] || !Listable(found[0]) then 0 else 1 + FirstRefused(found[1..])
  }

  predicate AllListable(found: seq<Listing>) {
    forall i :: 0 <= i < |found| ==> Listable(found[i])
  }

  function PartsOf(found: seq<Listing>): (parts: seq<Part>)
    requires AllListable(found)
    ensures |parts| == |found|
  {
    seq(|found|, i requires 0 <= i < |found| => Part(found[i].first, found[i].first + found[i].size - 1))
  }

  lemma PartsOfMore(found: seq<Listing>, i: nat)
    requires i < |found| && AllListable(found[..i + 1])
    ensures AllListable(found[..i])
    ensures InsertAll(PartsOf(found[..i + 1]))
      == Insert(InsertAll(PartsOf(found[..i])), Part(found[i].first, found[i].first + found[i].size - 1))
  {
    hide Insert;
    assert forall j :: 0 <= j < i ==> found[..i][j] == found[..i + 1][j];
    assert PartsOf(found[..i + 1])[..i] == PartsOf(found[..i]);
  }

  /** A rescan rebuilds a sorted, disjoint list whatever order the kernel's directory gives it in. */
  lemma RescanOrderIrrelevant(found: seq<Part>, sector: nat, parts: seq<Part>)
    requires multiset(found) == multiset(parts) && Fitted(sector, parts, 0)
    ensures InsertAll(found) == parts
  {
    FittedPairs(sector, parts, 0);
    InsertAllSorts(found);
    SortedIsUnique(parts, InsertAll(found));
  }

  /** add_partition_inner on the device's linked list; sz is in sectors. */
  class PartitionList {
    var parts: Partition?
    ghost var nodes: seq<Partition>

    ghost predicate Valid()
      reads this, nodes
    {
      Listed(parts, nodes)
    }

    constructor ()
      ensures Valid() && nodes == []
    {
      parts, nodes := null, [];
    }

    /** The index at which the walk over the list stops. */
    static function Place(parts: seq<Part>, first: nat): (i: nat)
      ensures i <= |parts|
      ensures forall j :: 0 <= j < i ==> parts[j].first < first
      ensures i < |parts| ==> parts[i].first >= first
    {
      if parts == [] || parts[0].first >= first then 0 else 1 + Place(parts[1..], first)
    }

    static lemma {:induction false} InsertAtPlace(parts: seq<Part>, p: Part)
      ensures var i := Place(parts, p.first); Insert(parts, p) == parts[..i] + [p] + parts[i..]
    {
      if parts != [] && parts[0].first < p.first {
        InsertAtPlace(parts[1..], p);
        var i := Place(parts[1..], p.first);
        assert parts[..i + 1] == [parts[0]] + parts[1..][..i];
        assert parts[i + 1..] == parts[1..][i..];
      }
    }

    static lemma {:induction false} PlaceIs(parts: seq<Part>, first: nat, i: nat)
      requires i <= |parts| && forall j :: 0 <= j < i ==> parts[j].first < first
      requires i < |parts| ==> parts[i].first >= first
      ensures Place(parts, first) == i
    {
    }

    method AddPartitionInner(nameFits: bool, pnum: nat, fsect: nat, sz: nat) returns (p: Partition?)
      requires Valid()
      modifies this, nodes
      ensures Valid()
      ensures p == null <==> !nameFits || pnum == 0 || sz == 0
      ensures p == null ==> nodes == old(nodes) && Parts(nodes) == old(Parts(nodes))
      ensures forall i :: 0 <= i < |nodes| ==> nodes[i] in old(nodes) || fresh(nodes[i])
      ensures p != null ==>
        && fresh(p) && p.pnumber == pnum
        && Parts(nodes) == Insert(old(Parts(nodes)), Part(fsect, fsect + sz - 1))
    {
      if !nameFits || pnum == 0 || sz == 0 {
        return null;
      }
      hide Insert, Place, Listed, Parts;
      ghost var was := Parts(nodes);
      ghost var i;
      var pre, cur;
      pre, cur, i := Walk(fsect);
      InsertAtPlace(was, Part(fsect, fsect + sz - 1));
      p := LinkNew(pre, cur, fsect, fsect + sz - 1, pnum, i);
    }

    /** The walk to the first partition that starts no earlier: it, the one before it, and its index. */
    method Walk(fsect: nat) returns (pre: Partition?, cur: Partition?, ghost i: nat)
      requires Valid()
      ensures i == Place(Parts(nodes), fsect)
      ensures pre == (if i > 0 then nodes[i - 1] else null) && cur == (if i < |nodes| then nodes[i] else null)
    {
      hide Place;
      ghost var was := Parts(nodes);
      i := 0;
      pre, cur := null, parts;
      while cur != null && cur.fsector < fsect
        invariant 0 <= i <= |nodes|
        invariant cur == if i < |nodes| then nodes[i] else null
        invariant pre == if i > 0 then nodes[i - 1] else null
        invariant forall j :: 0 <= j < i ==> was[j].first < fsect
        decreases |nodes| - i
      {
        pre, cur := cur, cur.next;
        i := i + 1;
      }
      PlaceIs(was, fsect, i);
    }

    /**
     A rescan: the list is reset and the partitions that the kernel's directory lists are added, in
     that order, up to the first that add_partition_inner refuses.
     */
    method Rescan(found: seq<Listing>) returns (ok: bool)
      requires Valid()
      modifies this
      ensures Valid() && fresh(nodes)
      ensures ok <==> FirstRefused(found) == |found|
      ensures Parts(nodes) == InsertAll(PartsOf(found[..FirstRefused(found)]))
    {
      hide Insert, Listed, Parts;
      parts, nodes := null, [];
      EmptyList();
      var i := 0;
      assert PartsOf(found[..0]) == [];
      while i < |found|
        invariant i <= FirstRefused(found)
        invariant Valid() && forall j :: 0 <= j < |nodes| ==> fresh(nodes[j])
        invariant Parts(nodes) == InsertAll(PartsOf(found[..i]))
      {
        var q := found[i];
        var p := AddPartitionInner(q.nameFits, q.pnum, q.first, q.size);
        if p == null {
          return false;
        }
        assert found[..i + 1][..i] == found[..i];
        PartsOfMore(found, i);
        i := i + 1;
      }
      ok := true;
    }

    /** The new node, pointing at the rest of the list, and *pre = p. */
    method LinkNew(pre: Partition?, cur: Partition?, fsect: nat, lsect: nat, pnum: nat, ghost i: nat)
      returns (p: Partition)
      requires Valid() && i <= |nodes|
      requires pre == (if i > 0 then nodes[i - 1] else null) && cur == (if i < |nodes| then nodes[i] else null)
      modifies this, nodes
      ensures Valid() && fresh(p) && p.pnumber == pnum
      ensures forall j :: 0 <= j < |nodes| ==> nodes[j] == p || nodes[j] in old(nodes)
      ensures Parts(nodes) == old(Parts(nodes)[..i]) + [Part(fsect, lsect)] + old(Parts(nodes)[i..])
    {
      hide Listed, Parts;
      ghost var was, ranges := nodes, Parts(nodes);
      OpenList(parts, was);
      p := new Partition(fsect, lsect, pnum, cur);
      if pre == null {
        parts := p;
      } else {
        pre.next := p;
      }
      nodes := was[..i] + [p] + was[i..];
      forall j | 0 <= j < |was|
        ensures was[j].next == if j + 1 == i then p else if j + 1 < |was| then was[j + 1] else null
        ensures ranges[j] == Part(was[j].fsector, was[j].lsector)
      {
        assert old(was[j].next) == if j + 1 < |was| then was[j + 1] else null;
      }
      Spliced(parts, was, i, p, ranges);
    }

    /** What Listed and Parts say, node by node. */
    static lemma OpenList(head: Partition?, ns: seq<Partition>)
      requires Listed(head, ns)
      ensures head == (if ns == [] then null else ns[0]) && forall j, k :: 0 <= j < k < |ns| ==> ns[j] != ns[k]
      ensures forall j {:trigger ns[j].next} :: 0 <= j < |ns| ==> ns[j].next == if j + 1 < |ns| then ns[j + 1] else null
      ensures forall j :: 0 <= j < |ns| ==> Parts(ns)[j] == Part(ns[j].fsector, ns[j].lsector)
    {
    }

    /** A node linked in at i makes the list one longer. */
    static lemma Spliced(head: Partition?, was: seq<Partition>, i: nat, p: Partition, ranges: seq<Part>)
      requires i <= |was| == |ranges| && p !in was
      requires forall j, k :: 0 <= j < k < |was| ==> was[j] != was[k]
      requires forall j {:trigger was[j].next} :: 0 <= j < |was| ==>
        was[j].next == if j + 1 == i then p else if j + 1 < |was| then was[j + 1] else null
      requires forall j :: 0 <= j < |was| ==> ranges[j] == Part(was[j].fsector, was[j].lsector)
      requires p.next == (if i < |was| then was[i] else null) && head == if i == 0 then p else was[0]
      ensures Listed(head, was[..i] + [p] + was[i..])
      ensures Parts(was[..i] + [p] + was[i..]) == ranges[..i] + [Part(p.fsector, p.lsector)] + ranges[i..]
    {
      hide Parts;
      var ns, rs := was[..i] + [p] + was[i..], ranges[..i] + [Part(p.fsector, p.lsector)] + ranges[i..];
      Inserted(was, i, p);
      Inserted(ranges, i, Part(p.fsector, p.lsector));
      forall j | 0 <= j < |ns|
        ensures Parts(ns)[j] == rs[j]
      {
        PartAt(ns, j);
      }
      forall j | 0 <= j < |ns|
        ensures ns[j].next == if j + 1 < |ns| then ns[j + 1] else null
      {
        if j + 1 < |ns| {
          assert ns[j + 1] == if j + 1 < i then was[j + 1] else if j + 1 == i then p else was[j];
        }
      }
    }

    static lemma PartAt(ns: seq<Partition>, j: nat)
      requires j < |ns|
      ensures Parts(ns)[j] == Part(ns[j].fsector, ns[j].lsector)
    {
    }

    static lemma Inserted<T>(s: seq<T>, i: nat, x: T)
      requires i <= |s|
      ensures var t := s[..i] + [x] + s[i..];
        |t| == |s| + 1 && forall j :: 0 <= j < |t| ==> t[j] == if j < i then s[j] else if j == i then x else s[j - 1]
    {
    }
  }

  lemma EmptyList()
    ensures Listed(null, []) && Parts([]) == InsertAll([])
  {
  }

  // ---- From a spec to a partition ----

  /** add_partition's check, add_gpt's alignment, and the check again. */
  function Accepted(dev: Device, r: Range): (p: Option<Part>)
    requires Sane(dev)
  {
    if BadRange(dev, r.first, r.last) then None
    else
      var f := AlignUp(r.first, Grain(dev));
      if BadRange(dev, f, r.last) then None else Some(Part(f, r.last))
  }

  /**
   A range is accepted exactly when it is usable and not empty once its start is rounded up; what is
   made of it starts at the first physical sector boundary from there on and keeps the end.
   */
  lemma AcceptedIff(dev: Device, r: Range)
    requires Sane(dev) && dev.physsec % dev.logsec == 0
    ensures Accepted(dev, r).Some? <==>
      FirstUsableSector(dev) <= r.first && AlignUp(r.first, Grain(dev)) <= r.last <= LastUsableSector(dev)
    ensures Accepted(dev, r).Some? ==>
      var p := Accepted(dev, r).value;
      && p.last == r.last && r.first <= p.first && OnPhysical(dev, p.first)
      && forall s: nat :: r.first <= s && OnPhysical(dev, s) ==> p.first <= s
  {
    hide AlignUp, Grain;
    AlignUpIsPhysical(dev, r.first);
  }

  /** The map the interface keeps of a partitioned whole disk. */
  function MapOf(dev: Device, parts: seq<Part>): Disk
    requires Sane(dev)
  {
    Disk(true, FirstUsableSector(dev), LastUsableSector(dev), dev.size / dev.logsec, parts)
  }

  /** A partitioned disk whose bounds make sense. */
  predicate Usable(dev: Device) {
    && Sane(dev) && dev.logsec >= 512 && dev.size <= MAX64
    && 1 <= FirstUsableSector(dev) <= LastUsableSector(dev) + 1 <= dev.size / dev.logsec
  }

  lemma SectorBound(dev: Device)
    requires Usable(dev)
    ensures dev.size / dev.logsec < SECTORS
  {
  }

  // ---- Insertion into a fitted list ----

  /** Looking at parts[k..] from index k is looking at the tail from index 0. */
  lemma {:induction false} ShiftFitted(sector: nat, parts: seq<Part>, k: nat)
    requires k <= |parts|
    ensures Fitted(sector, parts, k) <==> Fitted(sector, parts[k..], 0)
    decreases |parts| - k
  {
    if k < |parts| {
      ShiftFitted(parts[k].last + 1, parts, k + 1);
      ShiftFitted(parts[k].last + 1, parts[k..], 1);
      assert parts[k..][1..] == parts[k + 1..];
    }
  }

  predicate Disjoint(p: Part, q: Part) {
    p.last < q.first || q.last < p.first
  }

  lemma {:induction false} InsertFittedIff(sector: nat, parts: seq<Part>, p: Part)
    requires Fitted(sector, parts, 0) && sector <= p.first <= p.last
    ensures Fitted(sector, Insert(parts, p), 0) <==> forall k :: 0 <= k < |parts| ==> Disjoint(p, parts[k])
    decreases |parts|
  {
    var r := Insert(parts, p);
    if parts == [] {
    } else if parts[0].first >= p.first {
      PrependFittedIff(sector, parts, p);
    } else {
      var next, rest := parts[0].last + 1, parts[1..];
      ShiftFitted(next, parts, 1);
      ShiftFitted(next, r, 1);
      assert r[1..] == Insert(rest, p);
      if p.first < next {
        assert !Disjoint(p, parts[0]);
        InsertHolds(rest, p);
        FittedPairs(next, r[1..], 0);
      } else {
        InsertFittedIff(next, rest, p);
        assert forall k :: 1 <= k < |parts| ==> parts[k] == rest[k - 1];
        assert forall k :: 0 <= k < |rest| ==> rest[k] == parts[k + 1];
      }
    }
  }

  lemma PrependFittedIff(sector: nat, parts: seq<Part>, p: Part)
    requires Fitted(sector, parts, 0) && sector <= p.first <= p.last && parts != [] && parts[0].first >= p.first
    ensures Fitted(sector, [p] + parts, 0) <==> forall k :: 0 <= k < |parts| ==> Disjoint(p, parts[k])
  {
    FittedPairs(sector, parts, 0);
    FittedPairs(sector, [p] + parts, 0);
  }

  lemma {:induction false} InsertHolds(parts: seq<Part>, p: Part)
    ensures p in Insert(parts, p)
  {
    if parts != [] && parts[0].first < p.first {
      InsertHolds(parts[1..], p);
    }
  }

  /** An empty zone of the map meets no partition. */
  lemma {:induction false} BodyZoneClear(sector: nat, parts: seq<Part>, k: nat, z: Zone)
    requires k <= |parts| && Fitted(sector, parts, k)
    requires z in Body(sector, parts, k) && z.use == Empty
    ensures sector <= z.first
    ensures forall j :: k <= j < |parts| ==> z.last < parts[j].first || parts[j].last < z.first
    decreases |parts| - k
  {
    FittedPairs(sector, parts, k);
    if z !in Gap(sector, parts[k]) {
      assert z in Body(parts[k].last + 1, parts, k + 1);
      BodyZoneClear(parts[k].last + 1, parts, k + 1, z);
    }
  }

  lemma PastBounds(sector: nat, parts: seq<Part>, bound: nat)
    requires Fitted(sector, parts, 0) && sector <= bound
    ensures sector <= Past(sector, parts, 0)
    ensures Past(sector, parts, 0) <= bound <==> forall k :: 0 <= k < |parts| ==> parts[k].last < bound
  {
    FittedPairs(sector, parts, 0);
  }

  /** Any sub-range of any empty zone can be inserted: list fitted, bounds kept. */
  lemma EmptyZoneTakesPartition(d: Disk, z: Zone, p: Part)
    requires InBounds(d) && z in ZonesOf(d) && z.use == Empty
    requires z.first <= p.first <= p.last <= z.last
    ensures InBounds(d.(parts := Insert(d.parts, p)))
  {
    hide Body, Insert, Fitted, Past;
    var past := Past(d.first, d.parts, 0);
    PastBounds(d.first, d.parts, d.last + 1);
    if z in Body(d.first, d.parts, 0) {
      BodyZoneClear(d.first, d.parts, 0, z);
      BodyEmptyBound(d.first, d.parts, 0, z);
    } else {
      assert z in Tail(past, d);
      PastBounds(d.first, d.parts, past);
    }
    InsertFittedIff(d.first, d.parts, p);
    PastBounds(d.first, Insert(d.parts, p), d.last + 1);
    forall k | 0 <= k < |Insert(d.parts, p)|
      ensures Insert(d.parts, p)[k].last < d.last + 1
    {
      InsertAdds(d.parts, p);
      assert Insert(d.parts, p)[k] in multiset(Insert(d.parts, p));
      assert Insert(d.parts, p)[k] == p || Insert(d.parts, p)[k] in d.parts;
    }
  }

  lemma {:induction false} BodyEmptyBound(sector: nat, parts: seq<Part>, k: nat, z: Zone)
    requires k <= |parts| && Fitted(sector, parts, k) && z in Body(sector, parts, k) && z.use == Empty
    ensures z.last < Past(sector, parts, k)
    decreases |parts| - k
  {
    FittedPairs(sector, parts, k);
    if z !in Gap(sector, parts[k]) {
      assert z in Body(parts[k].last + 1, parts, k + 1);
      BodyEmptyBound(parts[k].last + 1, parts, k + 1, z);
    }
  }
}
