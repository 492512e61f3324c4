/**
 The zone map of a disk: what update_blockobj (src/notcurses/notcurses.c) derives from the usable
 bounds and the partition list, as sequences. ZoneChain has the linked chain that carries it.
 */
module Zones {
  import opened Arithmetic

  /** A partition's logical sectors, inclusive. */
  datatype Part = Part(first: nat, last: nat)

  /** Empty space, table metadata, or the partition at an index of the list. */
  datatype Use = Empty | Metadata | Held(index: nat)

  datatype Zone = Zone(first: nat, last: nat, use: Use)

  /** What the rebuild reads: is there a table, usable bounds, sectors on the disk, and the partitions in list order. */
  datatype Disk = Disk(partitioned: bool, first: nat, last: nat, sectors: nat, parts: seq<Part>)

  // ---- The zones in order of creation ----

  function Head(d: Disk): seq<Zone> {
    if d.partitioned && d.first != 0 then [Zone(0, d.first - 1, Metadata)] else []
  }

  /** The value of sector before the first partition is looked at. */
  function Start(d: Disk): nat {
    if d.partitioned then d.first else d.sectors + 1
  }

  function Gap(sector: nat, p: Part): seq<Zone> {
    if sector != p.first then [Zone(sector, Pred64(p.first), Empty)] else []
  }

  /** Zones for parts[k..] when everything below sector has one. */
  function Body(sector: nat, parts: seq<Part>, k: nat): seq<Zone>
    requires k <= |parts|
    decreases |parts| - k
  {
    if k == |parts| then []
    else Gap(sector, parts[k]) + [Zone(parts[k].first, parts[k].last, Held(k))] + Body(parts[k].last + 1, parts, k + 1)
  }

  lemma BodyStep(sector: nat, parts: seq<Part>, k: nat)
    requires k < |parts|
    ensures Body(sector, parts, k)
      == (Gap(sector, parts[k]) + [Zone(parts[k].first, parts[k].last, Held(k))])
         + Body(parts[k].last + 1, parts, k + 1)
  {
  }

  /** The first sector past the last of parts[k..], or sector itself. */
  function Past(sector: nat, parts: seq<Part>, k: nat): nat
    requires k <= |parts|
  {
    if k == |parts| then sector else parts[|parts| - 1].last + 1
  }

  predicate HasTrailingGap(sector: nat, d: Disk) {
    sector < d.sectors && sector <= d.last
  }

  /** After a trailing empty zone the tail starts on the last usable sector itself. */
  function Tail(sector: nat, d: Disk): seq<Zone> {
    var gap := if HasTrailingGap(sector, d) then [Zone(sector, d.last, Empty)] else [];
    var from := if HasTrailingGap(sector, d) then d.last else sector;
    gap + (if sector < d.sectors && from < d.sectors then [Zone(from, d.sectors - 1, Metadata)] else [])
  }

  function ZonesOf(d: Disk): seq<Zone> {
    Head(d) + Body(Start(d), d.parts, 0) + Tail(Past(Start(d), d.parts, 0), d)
  }

  // ---- When the rebuild succeeds ----

  /** create_zobj's conditions on a zone numbered i. */
  predicate Legal(z: Zone, i: nat) {
    z.first <= z.last && (z.first == 0 <==> i == 0)
  }

  predicate AllLegal(zs: seq<Zone>) {
    forall i :: 0 <= i < |zs| ==> Legal(zs[i], i)
  }

  /** parts[k..] is sorted, pairwise disjoint, and starts no lower than sector. */
  predicate Fitted(sector: nat, parts: seq<Part>, k: nat)
    requires k <= |parts|
    decreases |parts| - k
  {
    k == |parts| || (sector <= parts[k].first <= parts[k].last && Fitted(parts[k].last + 1, parts, k + 1))
  }

  /** The recursive form says what it should of every pair. */
  lemma {:induction false} FittedPairs(sector: nat, parts: seq<Part>, k: nat)
    requires k <= |parts|
    ensures Fitted(sector, parts, k) <==>
      && (forall i :: k <= i < |parts| ==> sector <= parts[i].first <= parts[i].last)
      && (forall i, j :: k <= i < j < |parts| ==> parts[i].last < parts[j].first)
    decreases |parts| - k
  {
    if k < |parts| {
      FittedPairs(parts[k].last + 1, parts, k + 1);
    }
  }

  predicate LegalFrom(zs: seq<Zone>, n: nat) {
    forall i :: 0 <= i < |zs| ==> Legal(zs[i], n + i)
  }

  lemma LegalConcat(a: seq<Zone>, b: seq<Zone>, n: nat)
    ensures LegalFrom(a + b, n) <==> LegalFrom(a, n) && LegalFrom(b, n + |a|)
  {
    if LegalFrom(a + b, n) {
      assert forall i :: 0 <= i < |a| ==> (a + b)[i] == a[i];
      assert forall i :: 0 <= i < |b| ==> (a + b)[|a| + i] == b[i];
    }
  }

  /** With zones before it, the partition part of the map is legal exactly when the list is fitted. */
  lemma {:induction false} BodyLegal(sector: nat, parts: seq<Part>, k: nat, n: nat)
    requires k <= |parts| && (sector == 0 <==> n == 0)
    ensures LegalFrom(Body(sector, parts, k), n) <==> Fitted(sector, parts, k)
    decreases |parts| - k
  {
    if k < |parts| {
      var p := parts[k];
      var gap := Gap(sector, p);
      var held := [Zone(p.first, p.last, Held(k))];
      var rest := Body(p.last + 1, parts, k + 1);
      LegalConcat(gap + held, rest, n);
      LegalConcat(gap, held, n);
      assert LegalFrom(held, n + |gap|) <==> Legal(held[0], n + |gap|);
      assert LegalFrom(gap, n) <==> (gap == [] || Legal(gap[0], n));
      BodyLegal(p.last + 1, parts, k + 1, n + |gap| + 1);
    }
  }

  /** A bare disk of one usable sector, number 0: two zones would both start there. */
  predicate Degenerate(d: Disk) {
    d.first == 0 && d.last == 0 && d.parts == [] && d.sectors > 0
  }

  /**
   The rebuild reaches its error path unless the list is sorted, disjoint and above the first usable
   sector; without a table, unless the list is empty. Upper bounds play no part.
   */
  lemma RebuildSucceedsIff(d: Disk)
    ensures AllLegal(ZonesOf(d)) <==>
      if d.partitioned then Fitted(d.first, d.parts, 0) && !Degenerate(d) else d.parts == []
  {
    var sector := Start(d);
    var past := Past(sector, d.parts, 0);
    var head, body, tail := Head(d), Body(sector, d.parts, 0), Tail(past, d);
    assert AllLegal(ZonesOf(d)) <==> LegalFrom(ZonesOf(d), 0);
    LegalConcat(head + body, tail, 0);
    LegalConcat(head, body, 0);
    if d.partitioned {
      BodyLegal(sector, d.parts, 0, |head|);
      if Fitted(d.first, d.parts, 0) {
        BodyCount(sector, d.parts, 0);
        TailLegal(d, past, |head| + |body|);
      }
    } else if d.parts != [] {
      assert !Legal(body[0], 0);
    }
  }

  lemma BodyCount(sector: nat, parts: seq<Part>, k: nat)
    requires k <= |parts|
    ensures |Body(sector, parts, k)| >= |parts| - k
    ensures k < |parts| ==> Past(sector, parts, k) > 0
    decreases |parts| - k
  {
    if k < |parts| {
      BodyCount(parts[k].last + 1, parts, k + 1);
    }
  }

  lemma TailLegal(d: Disk, sector: nat, n: nat)
    requires sector == 0 <==> n == 0
    ensures LegalFrom(Tail(sector, d), n) <==> !(sector == 0 && d.last == 0 && d.sectors > 0)
  {
    var tail := Tail(sector, d);
    if sector == 0 && d.last == 0 && d.sectors > 0 {
      assert !Legal(tail[1], n + 1);
    }
  }

  // ---- What the map says ----

  /** Partitions lie within the usable range, and the range within the disk. */
  predicate InBounds(d: Disk) {
    && d.partitioned && 1 <= d.first <= d.last + 1 <= d.sectors
    && Fitted(d.first, d.parts, 0)
    && Past(d.first, d.parts, 0) <= d.last + 1
  }

  /** Each zone of zs starts where the one before ends, the first at from and the last ending before to. */
  predicate Abuts(zs: seq<Zone>, from: nat, to: nat) {
    if zs == [] then from == to
    else
      && zs[0].first == from && zs[|zs| - 1].last + 1 == to
      && (forall i :: 0 <= i < |zs| ==> zs[i].first <= zs[i].last)
      && forall i :: 1 <= i < |zs| ==> zs[i].first == zs[i - 1].last + 1
  }

  lemma AbutsConcat(a: seq<Zone>, b: seq<Zone>, from: nat, mid: nat, to: nat)
    requires Abuts(a, from, mid) && Abuts(b, mid, to)
    ensures Abuts(a + b, from, to)
  {
  }

  lemma HereAbuts(sector: nat, p: Part, k: nat)
    requires sector <= p.first <= p.last
    ensures Abuts(Gap(sector, p) + [Zone(p.first, p.last, Held(k))], sector, p.last + 1)
  {
  }

  lemma {:induction false} BodyAbuts(sector: nat, parts: seq<Part>, k: nat)
    requires k <= |parts| && Fitted(sector, parts, k)
    ensures Abuts(Body(sector, parts, k), sector, Past(sector, parts, k))
    decreases |parts| - k
  {
    hide Gap;
    if k < |parts| {
      hide Abuts, Body;
      var p := parts[k];
      BodyAbuts(p.last + 1, parts, k + 1);
      HereAbuts(sector, p, k);
      BodyStep(sector, parts, k);
      AbutsConcat(Gap(sector, p) + [Zone(p.first, p.last, Held(k))], Body(p.last + 1, parts, k + 1),
        sector, p.last + 1, Past(sector, parts, k));
    } else {
      assert Body(sector, parts, k) == [];
    }
  }

  /** Whether the map ends with an empty zone and the metadata zone that shares its last sector. */
  predicate Shares(d: Disk) {
    HasTrailingGap(Past(d.first, d.parts, 0), d)
  }

  /** All zones but the tail's: they abut up to the first sector past the partitions. */
  lemma FrontAbuts(d: Disk)
    requires InBounds(d)
    ensures Abuts(Head(d) + Body(d.first, d.parts, 0), 0, Past(d.first, d.parts, 0))
  {
    hide Body, Past;
    BodyAbuts(d.first, d.parts, 0);
    AbutsConcat(Head(d), Body(d.first, d.parts, 0), 0, d.first, Past(d.first, d.parts, 0));
  }

  /** The two shapes of the tail. */
  lemma TailShape(d: Disk, past: nat)
    requires past <= d.last + 1 <= d.sectors
    ensures if HasTrailingGap(past, d) then
        Tail(past, d) == [Zone(past, d.last, Empty), Zone(d.last, d.sectors - 1, Metadata)]
      else past == d.last + 1 && Tail(past, d) == if past < d.sectors then [Zone(past, d.sectors - 1, Metadata)] else []
  {
  }

  /**
   The zones cover the disk from sector 0 to its end, each starting one past its predecessor,
   except that after a trailing empty zone the tail starts on that zone's last sector.
   */
  lemma ZonesCoverDisk(d: Disk)
    requires InBounds(d)
    ensures var zs := ZonesOf(d); var n := |zs|;
      if Shares(d) then
        && n >= 2 && Abuts(zs[..n - 1], 0, d.last + 1)
        && zs[n - 2].use == Empty && zs[n - 2].last == d.last
        && zs[n - 1] == Zone(d.last, d.sectors - 1, Metadata)
      else Abuts(zs, 0, d.sectors)
  {
    hide Body, Past, Head, Tail, Abuts, Fitted;
    var past := Past(d.first, d.parts, 0);
    var front, tail := Head(d) + Body(d.first, d.parts, 0), Tail(past, d);
    FrontAbuts(d);
    TailShape(d, past);
    if Shares(d) {
      var gap := [Zone(past, d.last, Empty)];
      OneAbuts(past, d.last, Empty);
      AbutsConcat(front, gap, 0, past, d.last + 1);
      assert ZonesOf(d)[..|ZonesOf(d)| - 1] == front + gap;
    } else if past < d.sectors {
      OneAbuts(past, d.sectors - 1, Metadata);
      AbutsConcat(front, tail, 0, past, d.sectors);
    } else {
      assert front + tail == front;
    }
  }

  lemma OneAbuts(first: nat, last: nat, use: Use)
    requires first <= last
    ensures Abuts([Zone(first, last, use)], first, last + 1)
  {
  }

  function TotalLength(zs: seq<Zone>): int {
    if zs == [] then 0 else (zs[0].last - zs[0].first + 1) + TotalLength(zs[1..])
  }

  lemma {:induction false} AbutsLength(zs: seq<Zone>, from: nat, to: nat)
    requires Abuts(zs, from, to)
    ensures TotalLength(zs) == to - from
  {
    if zs != [] {
      AbutsLength(zs[1..], zs[0].last + 1, to);
    }
  }

  lemma {:induction false} LengthConcat(a: seq<Zone>, b: seq<Zone>)
    ensures TotalLength(a + b) == TotalLength(a) + TotalLength(b)
  {
    if a == [] {
      assert a + b == b;
    } else {
      assert (a + b)[1..] == a[1..] + b;
      LengthConcat(a[1..], b);
    }
  }

  /** Together the zones are as long as the disk, plus one sector exactly when there is a trailing empty zone. */
  lemma ZonesLength(d: Disk)
    requires InBounds(d)
    ensures TotalLength(ZonesOf(d)) == d.sectors + (if Shares(d) then 1 else 0)
  {
    ZonesCoverDisk(d);
    var zs := ZonesOf(d);
    if Shares(d) {
      var n := |zs|;
      AbutsLength(zs[..n - 1], 0, d.last + 1);
      LengthConcat(zs[..n - 1], zs[n - 1..]);
      assert zs[..n - 1] + zs[n - 1..] == zs;
      assert zs[n - 1..] == [zs[n - 1]];
      assert TotalLength([zs[n - 1]]) == d.sectors - d.last;
    } else {
      AbutsLength(zs, 0, d.sectors);
    }
  }

  function HeldBy(z: Zone): seq<nat> {
    if z.use.Held? then [z.use.index] else []
  }

  /** The partition indices of the zones, in zone order. */
  function HeldIndices(zs: seq<Zone>): seq<nat> {
    if zs == [] then [] else HeldBy(zs[0]) + HeldIndices(zs[1..])
  }

  lemma {:induction false} HeldConcat(a: seq<Zone>, b: seq<Zone>)
    ensures HeldIndices(a + b) == HeldIndices(a) + HeldIndices(b)
  {
    hide HeldBy;
    if a == [] {
      assert a + b == b;
    } else {
      assert (a + b)[1..] == a[1..] + b;
      HeldConcat(a[1..], b);
    }
  }

  function UpFrom(k: nat, n: nat): (r: seq<nat>)
    requires k <= n
    ensures |r| == n - k && forall i :: 0 <= i < n - k ==> r[i] == k + i
  {
    seq(n - k, i requires 0 <= i < n - k => k + i)
  }

  lemma {:induction false} BodyHolds(sector: nat, parts: seq<Part>, k: nat)
    requires k <= |parts|
    ensures HeldIndices(Body(sector, parts, k)) == UpFrom(k, |parts|)
    decreases |parts| - k
  {
    hide HeldIndices, Gap, UpFrom;
    if k == |parts| {
      NoneHeld([]);
      assert UpFrom(k, |parts|) == [];
    } else {
      var p := parts[k];
      var held := [Zone(p.first, p.last, Held(k))];
      GapHoldsNone(sector, p, held, k);
      BodyHolds(p.last + 1, parts, k + 1);
      HeldConcat(Gap(sector, p) + held, Body(p.last + 1, parts, k + 1));
      assert UpFrom(k, |parts|) == [k] + UpFrom(k + 1, |parts|);
    }
  }

  lemma GapHoldsNone(sector: nat, p: Part, held: seq<Zone>, k: nat)
    requires held == [Zone(p.first, p.last, Held(k))]
    ensures HeldIndices(Gap(sector, p) + held) == [k]
  {
    HeldConcat(Gap(sector, p), held);
    assert HeldIndices(held) == HeldBy(held[0]) + HeldIndices([]);
  }

  lemma {:induction false} BodyRanges(sector: nat, parts: seq<Part>, k: nat)
    requires k <= |parts|
    ensures forall z :: z in Body(sector, parts, k) && z.use.Held? ==>
      z.use.index < |parts| && Part(z.first, z.last) == parts[z.use.index]
    decreases |parts| - k
  {
    if k < |parts| {
      BodyRanges(parts[k].last + 1, parts, k + 1);
    }
  }

  /** Each partition has exactly one zone, with its own sectors, in list order. */
  lemma EachPartitionOneZone(d: Disk)
    ensures HeldIndices(ZonesOf(d)) == UpFrom(0, |d.parts|)
    ensures forall z :: z in ZonesOf(d) && z.use.Held? ==>
      z.use.index < |d.parts| && Part(z.first, z.last) == d.parts[z.use.index]
  {
    hide Body, HeldIndices, Past, UpFrom;
    var body, tail := Body(Start(d), d.parts, 0), Tail(Past(Start(d), d.parts, 0), d);
    BodyHolds(Start(d), d.parts, 0);
    BodyRanges(Start(d), d.parts, 0);
    HeldConcat(Head(d) + body, tail);
    HeldConcat(Head(d), body);
    NoneHeld(Head(d));
    NoneHeld(tail);
  }

  lemma {:induction false} NoneHeld(zs: seq<Zone>)
    requires forall z :: z in zs ==> !z.use.Held?
    ensures HeldIndices(zs) == []
  {
    if zs != [] {
      NoneHeld(zs[1..]);
    }
  }

  // ---- What a sector's zone is ----

  predicate Contains(p: Part, x: nat) {
    p.first <= x <= p.last
  }

  /** Some partition of the disk's list contains sector x. */
  predicate Occupied(d: Disk, x: nat) {
    exists k :: 0 <= k < |d.parts| && Contains(d.parts[k], x)
  }

  /** Sector x lies in some zone of this use. */
  predicate InZone(zs: seq<Zone>, x: nat, use: Use) {
    exists i :: 0 <= i < |zs| && zs[i].use == use && zs[i].first <= x <= zs[i].last
  }

  lemma InZoneConcat(a: seq<Zone>, b: seq<Zone>, x: nat, use: Use)
    ensures InZone(a + b, x, use) <==> InZone(a, x, use) || InZone(b, x, use)
  {
    if i :| 0 <= i < |a| && a[i].use == use && a[i].first <= x <= a[i].last {
      assert (a + b)[i] == a[i];
    }
    if i :| 0 <= i < |b| && b[i].use == use && b[i].first <= x <= b[i].last {
      assert (a + b)[|a| + i] == b[i];
    }
  }

  /** The uses among the zones of parts[k..]: its partitions, and empty space where none of them is. */
  predicate BodyUse(sector: nat, parts: seq<Part>, k: nat, x: nat, use: Use)
    requires k <= |parts|
  {
    match use
    case Empty =>
      sector <= x < Past(sector, parts, k) && forall j :: k <= j < |parts| ==> !Contains(parts[j], x)
    case Metadata => false
    case Held(j) => k <= j < |parts| && Contains(parts[j], x)
  }

  lemma {:induction false} BodyUses(sector: nat, parts: seq<Part>, k: nat, x: nat, use: Use)
    requires k <= |parts| && Fitted(sector, parts, k)
    ensures InZone(Body(sector, parts, k), x, use) <==> BodyUse(sector, parts, k, x, use)
    decreases |parts| - k
  {
    hide Body, Fitted;
    FittedPairs(sector, parts, k);
    if k == |parts| {
      BodyNone(sector, parts);
    } else {
      var p := parts[k];
      var gap, held := Gap(sector, p), [Zone(p.first, p.last, Held(k))];
      FittedRest(sector, parts, k);
      BodyUses(p.last + 1, parts, k + 1, x, use);
      BodyStep(sector, parts, k);
      InZoneConcat(gap + held, Body(p.last + 1, parts, k + 1), x, use);
      InZoneConcat(gap, held, x, use);
      assert InZone(held, x, use) <==> use == Held(k) && Contains(p, x) by { assert held[0].use == Held(k); }
      GapUses(sector, p, x, use);
    }
  }

  lemma BodyNone(sector: nat, parts: seq<Part>)
    ensures Body(sector, parts, |parts|) == []
  {
  }

  lemma FittedRest(sector: nat, parts: seq<Part>, k: nat)
    requires k < |parts| && Fitted(sector, parts, k)
    ensures Fitted(parts[k].last + 1, parts, k + 1)
  {
  }

  lemma GapUses(sector: nat, p: Part, x: nat, use: Use)
    requires sector <= p.first
    ensures InZone(Gap(sector, p), x, use) <==> use == Empty && sector <= x < p.first
  {
    var gap := Gap(sector, p);
    if sector < p.first {
      assert gap[0] == Zone(sector, p.first - 1, Empty);
    }
  }

  /**
   What every sector of a disk is shown as. Empty: exactly the usable sectors in no partition. Held:
   exactly the partition's own. Metadata: exactly the sectors outside the usable range, and the last
   usable one again when it is free.
   */
  lemma ZoneOfSector(d: Disk, x: nat, use: Use)
    requires InBounds(d)
    ensures InZone(ZonesOf(d), x, use) <==>
      match use
      case Empty => d.first <= x <= d.last && !Occupied(d, x)
      case Metadata => x < d.first || d.last < x < d.sectors || (d.first <= x == d.last && !Occupied(d, x))
      case Held(k) => k < |d.parts| && Contains(d.parts[k], x)
  {
    hide Body, Tail, Fitted;
    var past := Past(d.first, d.parts, 0);
    var head, body, tail := Head(d), Body(d.first, d.parts, 0), Tail(past, d);
    InZoneConcat(head + body, tail, x, use);
    InZoneConcat(head, body, x, use);
    assert head == [Zone(0, d.first - 1, Metadata)];
    assert InZone(head, x, use) <==> use == Metadata && x < d.first by { assert head[0].use == Metadata; }
    BodyUses(d.first, d.parts, 0, x, use);
    TailUses(d, past, x, use);
    FittedPairs(d.first, d.parts, 0);
    PastIsFree(d, x);
  }

  /** A device without a table has no map. */
  lemma UnpartitionedIsBlank(d: Disk)
    requires !d.partitioned
    ensures d.parts == [] ==> ZonesOf(d) == []
    ensures d.parts != [] ==> !AllLegal(ZonesOf(d))
  {
    RebuildSucceedsIff(d);
  }

  lemma TailUses(d: Disk, past: nat, x: nat, use: Use)
    requires past <= d.last + 1 <= d.sectors
    ensures InZone(Tail(past, d), x, use) <==>
      match use
      case Empty => past <= x <= d.last
      case Metadata => d.last < x < d.sectors || (past <= x == d.last)
      case Held(_) => false
  {
    hide Tail;
    TailShape(d, past);
    var tail := Tail(past, d);
    if HasTrailingGap(past, d) {
      assert tail[0] == Zone(past, d.last, Empty) && tail[1] == Zone(d.last, d.sectors - 1, Metadata);
    } else if past < d.sectors {
      assert tail[0] == Zone(past, d.sectors - 1, Metadata);
    }
  }

  /** No partition lies past the last one. */
  lemma PastIsFree(d: Disk, x: nat)
    requires InBounds(d)
    ensures Past(d.first, d.parts, 0) <= x ==> !Occupied(d, x)
    ensures d.first <= Past(d.first, d.parts, 0)
    ensures d.first <= d.last < Past(d.first, d.parts, 0) ==> Occupied(d, d.last)
  {
    FittedPairs(d.first, d.parts, 0);
    if d.parts != [] {
      assert Contains(d.parts[|d.parts| - 1], Past(d.first, d.parts, 0) - 1);
    }
  }

  /** Sectors a to b meet no partition. */
  predicate FreeStretch(d: Disk, a: nat, b: nat) {
    d.first <= a <= b <= d.last && forall k :: 0 <= k < |d.parts| ==> b < d.parts[k].first || d.parts[k].last < a
  }

  /** Every free stretch of usable sectors lies within one empty zone. */
  lemma FreeStretchHasZone(d: Disk, a: nat, b: nat) returns (i: nat)
    requires InBounds(d) && FreeStretch(d, a, b)
    ensures i < |ZonesOf(d)|
    ensures var z := ZonesOf(d)[i]; z.use == Empty && z.first <= a && b <= z.last
  {
    hide Body, Tail;
    var past := Past(d.first, d.parts, 0);
    var head, body, tail := Head(d), Body(d.first, d.parts, 0), Tail(past, d);
    FittedPairs(d.first, d.parts, 0);
    TailShape(d, past);
    if past <= a {
      i := |head| + |body|;
      assert ZonesOf(d)[i] == tail[0];
    } else {
      var j := BodyStretch(d.first, d.parts, 0, a, b);
      i := |head| + j;
      assert ZonesOf(d)[i] == body[j];
    }
  }

  lemma {:induction false} BodyStretch(sector: nat, parts: seq<Part>, k: nat, a: nat, b: nat) returns (i: nat)
    requires k <= |parts| && Fitted(sector, parts, k) && sector <= a <= b && a < Past(sector, parts, k)
    requires forall j :: k <= j < |parts| ==> b < parts[j].first || parts[j].last < a
    ensures i < |Body(sector, parts, k)|
    ensures var z := Body(sector, parts, k)[i]; z.use == Empty && z.first <= a && b <= z.last
    decreases |parts| - k
  {
    hide Body;
    var p, more := parts[k], Body(parts[k].last + 1, parts, k + 1);
    BodyStep(sector, parts, k);
    if b < p.first {
      i := 0;
    } else {
      var j := BodyStretch(p.last + 1, parts, k + 1, a, b);
      i := |Gap(sector, p)| + 1 + j;
      assert Body(sector, parts, k)[i] == more[j];
    }
  }

  // ---- The selected zone ----

  function Clamped(sel: int, count: nat): int {
    if sel >= count then (if count > 0 then count - 1 else 0) else sel
  }

  predicate IsEmptyAt(zs: seq<Zone>, i: nat) {
    i < |zs| && zs[i].use == Empty
  }

  /** The lowest-numbered empty zone below n, or n. */
  function LowestEmpty(zs: seq<Zone>, i: nat): (r: nat)
    requires i <= |zs|
    ensures i <= r <= |zs|
    ensures r < |zs| ==> IsEmptyAt(zs, r)
    ensures forall j :: i <= j < r ==> !IsEmptyAt(zs, j)
    decreases |zs| - i
  {
    if i == |zs| || IsEmptyAt(zs, i) then i else LowestEmpty(zs, i + 1)
  }

  /** The zone selected after a rebuild; sel is the number selected before it, -1 for none. */
  function Selected(zs: seq<Zone>, sel: int): (r: nat)
    requires zs != [] && sel >= -1
    ensures r < |zs|
    ensures sel >= 0 ==> r == if sel < |zs| then sel else |zs| - 1
    ensures sel == -1 && (exists i :: IsEmptyAt(zs, i)) ==>
      IsEmptyAt(zs, r) && forall j :: 0 <= j < r ==> !IsEmptyAt(zs, j)
  {
    if sel >= 0 then Clamped(sel, |zs|)
    else if LowestEmpty(zs, 0) < |zs| then LowestEmpty(zs, 0)
    else if |zs| > 1 then 1 else 0
  }
}
