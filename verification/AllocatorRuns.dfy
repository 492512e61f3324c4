/** What every run of creations and deletions keeps, and the requests for which it does not hold. */
module AllocatorRuns {
  import opened Arithmetic
  import opened Decimal
  import opened Devices
  import opened Zones
  import opened ZoneChain
  import opened PartSpec
  import opened Allocator
  import opened Wrappers
  import GptGeometry

  /** The range a spec asks for in zone z; erange says that errno held ERANGE before the call. */
  function Lexed(dev: Device, z: Zone, s: string, erange: bool): (r: Option<Range>)
    requires Sane(dev) && z.first <= z.last
  {
    LexSpec(s, z.first, z.last, dev.logsec, erange)
  }

  /** The partition a request creates in zone z, if any. */
  function Request(dev: Device, z: Zone, s: string, erange: bool): (p: Option<Part>)
    requires Sane(dev) && z.first <= z.last
  {
    if z.use != Empty then None
    else
      var r := Lexed(dev, z, s, erange);
      if r.None? then None else Accepted(dev, r.value)
  }

  /** A percent or size request that is accepted lies inside the zone it was made in. */
  lemma RequestStaysInZone(dev: Device, z: Zone, s: string, erange: bool)
    requires Usable(dev) && 1 <= z.first <= z.last < SECTORS && !Has(s, ':')
    requires Request(dev, z, s, erange).Some?
    ensures var p := Request(dev, z, s, erange).value; z.first <= p.first <= p.last <= z.last
  {
    hide LexSpec;
    SpecStaysInZone(s, z.first, z.last, dev.logsec, erange);
    AlignUpIsLeast(z.first, Grain(dev));
  }

  /**
   A request that lexes to count sectors of a selectable zone is accepted exactly when the zone's
   start, rounded up to a physical sector, is not past the last of them.
   */
  lemma RequestAcceptedIff(dev: Device, z: Zone, s: string, erange: bool)
    requires Usable(dev) && !Has(s, ':') && z.use == Empty
    requires FirstUsableSector(dev) <= z.first <= z.last <= LastUsableSector(dev)
    requires Lexed(dev, z, s, erange).Some?
    ensures var r := Lexed(dev, z, s, erange).value;
      Request(dev, z, s, erange).Some? <==> r.last >= z.first && AlignUp(z.first, Grain(dev)) <= r.last
  {
    hide LexSpec;
    SectorBound(dev);
    SpecStaysInZone(s, z.first, z.last, dev.logsec, erange);
    AlignUpIsLeast(z.first, Grain(dev));
  }

  /** The partition that a request creates in the zone numbered i of the list's map, if any. */
  function Requested(dev: Device, parts: seq<Part>, i: nat, s: string, erange: bool): (p: Option<Part>)
    requires Sane(dev)
  {
    var zs := ZonesOf(MapOf(dev, parts));
    if i < |zs| && zs[i].first <= zs[i].last then Request(dev, zs[i], s, erange) else None
  }

  /**
   Any stretch of usable sectors that no partition meets lies in one empty zone, and asked for there by
   its sector numbers it is created, from its first physical sector on.
   */
  lemma FreeStretchIsRequestable(dev: Device, parts: seq<Part>, a: nat, b: nat, erange: bool) returns (i: nat)
    requires Usable(dev) && InBounds(MapOf(dev, parts)) && FreeStretch(MapOf(dev, parts), a, b)
    requires AlignUp(a, Grain(dev)) <= b
    ensures i < |ZonesOf(MapOf(dev, parts))|
    ensures var z := ZonesOf(MapOf(dev, parts))[i]; z.use == Empty && z.first <= a && b <= z.last
    ensures Requested(dev, parts, i, Dec(a) + ":" + Dec(b), erange) == Some(Part(AlignUp(a, Grain(dev)), b))
  {
    hide ZonesOf, InBounds, LexSpec, Dec, AlignUp, Grain, Accepted;
    i := FreeStretchHasZone(MapOf(dev, parts), a, b);
    var z := ZonesOf(MapOf(dev, parts))[i];
    SectorBound(dev);
    EmptyZoneBounds(MapOf(dev, parts), i);
    ColonMeans(a, b, z.first, z.last, dev.logsec, erange);
    InsideIsAccepted(dev, Range(a, b));
  }

  lemma InsideIsAccepted(dev: Device, r: Range)
    requires Sane(dev) && FirstUsableSector(dev) <= r.first
    requires AlignUp(r.first, Grain(dev)) <= r.last <= LastUsableSector(dev)
    ensures Accepted(dev, r) == Some(Part(AlignUp(r.first, Grain(dev)), r.last))
  {
    hide AlignUp;
    AlignUpIsLeast(r.first, Grain(dev));
  }

  datatype Op = Create(zone: nat, spec: string, erange: bool) | Delete(index: nat)

  /** The partition list after one operation; refused ones leave it alone. */
  function Step(dev: Device, parts: seq<Part>, op: Op): seq<Part>
    requires Sane(dev)
  {
    match op
    case Create(i, s, e) =>
      var p := Requested(dev, parts, i, s, e);
      if p.Some? then Insert(parts, p.value) else parts
    case Delete(k) => if k < |parts| then parts[..k] + parts[k + 1..] else parts
  }

  function After(dev: Device, parts: seq<Part>, ops: seq<Op>): seq<Part>
    requires Sane(dev)
    decreases |ops|
  {
    if ops == [] then parts else After(dev, Step(dev, parts, ops[0]), ops[1..])
  }

  /** No spec of the run is a colon range. */
  predicate NoColons(ops: seq<Op>) {
    forall i :: 0 <= i < |ops| ==> ops[i].Create? ==> !Has(ops[i].spec, ':')
  }

  lemma EmptyZoneBounds(d: Disk, i: nat)
    requires InBounds(d) && i < |ZonesOf(d)| && ZonesOf(d)[i].use == Empty
    ensures var z := ZonesOf(d)[i]; d.first <= z.first <= z.last <= d.last
  {
    hide Body, Tail, Abuts;
    FittedPairs(d.first, d.parts, 0);
    var z := ZonesOf(d)[i];
    var past := Past(d.first, d.parts, 0);
    assert z in ZonesOf(d);
    if z in Body(d.first, d.parts, 0) {
      BodyEmptyBound(d.first, d.parts, 0, z);
      BodyAbove(d.first, d.parts, 0, z);
    } else {
      assert z in Tail(past, d);
      TailShape(d, past);
    }
  }

  lemma {:induction false} BodyAbove(sector: nat, parts: seq<Part>, k: nat, z: Zone)
    requires k <= |parts| && Fitted(sector, parts, k) && z in Body(sector, parts, k)
    ensures sector <= z.first <= z.last
    decreases |parts| - k
  {
    var q := parts[k];
    if z !in Gap(sector, q) && z != Zone(q.first, q.last, Held(k)) {
      assert z in Body(q.last + 1, parts, k + 1);
      BodyAbove(q.last + 1, parts, k + 1, z);
    }
  }

  lemma CreateKeepsBounds(dev: Device, parts: seq<Part>, i: nat, s: string, erange: bool)
    requires Usable(dev) && InBounds(MapOf(dev, parts)) && !Has(s, ':')
    ensures InBounds(MapOf(dev, Step(dev, parts, Create(i, s, erange))))
  {
    hide LexSpec, ZonesOf, Insert, Accepted, InBounds;
    var d := MapOf(dev, parts);
    var zs := ZonesOf(d);
    if Requested(dev, parts, i, s, erange).Some? {
      var z := zs[i];
      EmptyZoneBounds(d, i);
      SectorBound(dev);
      RequestStaysInZone(dev, z, s, erange);
      EmptyZoneTakesPartition(d, z, Request(dev, z, s, erange).value);
    }
  }

  lemma DeleteKeepsBounds(d: Disk, k: nat)
    requires InBounds(d) && k < |d.parts|
    ensures InBounds(d.(parts := d.parts[..k] + d.parts[k + 1..]))
  {
    hide Fitted, Past;
    var left := d.parts[..k] + d.parts[k + 1..];
    FittedPairs(d.first, d.parts, 0);
    PastBounds(d.first, d.parts, d.last + 1);
    assert forall i :: 0 <= i < |left| ==> left[i] == d.parts[if i < k then i else i + 1];
    FittedPairs(d.first, left, 0);
    PastBounds(d.first, left, d.last + 1);
  }

  /**
   Every run of percent and size creations in selected zones, and deletions, keeps the list sorted,
   disjoint and within the usable bounds; so each rebuild of the zone map succeeds.
   */
  lemma {:induction false} RunsStayFitted(dev: Device, parts: seq<Part>, ops: seq<Op>)
    requires Usable(dev) && InBounds(MapOf(dev, parts)) && NoColons(ops)
    ensures var d := MapOf(dev, After(dev, parts, ops)); InBounds(d) && AllLegal(ZonesOf(d))
    decreases |ops|
  {
    hide Step, InBounds, ZonesOf, AllLegal;
    if ops == [] {
      FittedRebuilds(MapOf(dev, parts));
    } else {
      StepKeepsBounds(dev, parts, ops[0]);
      RunsStayFitted(dev, Step(dev, parts, ops[0]), ops[1..]);
    }
  }

  lemma FittedRebuilds(d: Disk)
    requires InBounds(d)
    ensures AllLegal(ZonesOf(d))
  {
    hide ZonesOf, AllLegal;
    RebuildSucceedsIff(d);
  }

  lemma StepKeepsBounds(dev: Device, parts: seq<Part>, op: Op)
    requires Usable(dev) && InBounds(MapOf(dev, parts))
    requires op.Create? ==> !Has(op.spec, ':')
    ensures InBounds(MapOf(dev, Step(dev, parts, op)))
  {
    hide InBounds;
    match op {
      case Create(i, s, e) => CreateKeepsBounds(dev, parts, i, s, e);
      case Delete(k) =>
        if k < |parts| {
          DeleteKeepsBounds(MapOf(dev, parts), k);
        }
    }
  }

  // ---- Any accepted range ----

  /** What the range checks give: an aligned range within the usable sectors. */
  lemma AcceptedInRange(dev: Device, r: Range)
    requires Usable(dev) && Accepted(dev, r).Some?
    ensures var p := Accepted(dev, r).value;
      FirstUsableSector(dev) <= p.first <= p.last <= LastUsableSector(dev) && p.last == r.last
  {
  }

  /** p meets no partition of the list. */
  predicate MeetsNone(p: Part, parts: seq<Part>) {
    forall k :: 0 <= k < |parts| ==> Disjoint(p, parts[k])
  }

  /**
   Any accepted range, a colon range included, leaves a list that is sorted, disjoint and in bounds, and
   whose map can be rebuilt, exactly when the aligned range meets no existing partition; the checks
   the code applies do not ensure that.
   */
  lemma AcceptedRebuildsIff(dev: Device, parts: seq<Part>, r: Range)
    requires Usable(dev) && InBounds(MapOf(dev, parts)) && Accepted(dev, r).Some?
    ensures var p := Accepted(dev, r).value; var d := MapOf(dev, Insert(parts, p));
      && (AllLegal(ZonesOf(d)) <==> MeetsNone(p, parts))
      && (InBounds(d) <==> MeetsNone(p, parts))
  {
    hide ZonesOf, AllLegal, Insert, Fitted, Past, Accepted;
    var p := Accepted(dev, r).value;
    var d := MapOf(dev, Insert(parts, p));
    AcceptedInRange(dev, r);
    InsertFittedIff(d.first, parts, p);
    RebuildSucceedsIff(d);
    PastBounds(d.first, parts, d.last + 1);
    if Fitted(d.first, d.parts, 0) {
      PastBounds(d.first, d.parts, d.last + 1);
      InsertedBelow(parts, p, d.last);
    }
  }

  lemma InsertedBelow(parts: seq<Part>, p: Part, last: nat)
    requires p.last <= last && forall k :: 0 <= k < |parts| ==> parts[k].last < last + 1
    ensures forall k :: 0 <= k < |Insert(parts, p)| ==> Insert(parts, p)[k].last < last + 1
  {
    hide Insert;
    forall k | 0 <= k < |Insert(parts, p)|
      ensures Insert(parts, p)[k].last < last + 1
    {
      InsertMembers(parts, p, Insert(parts, p)[k]);
    }
  }

  /** "100:200" over a partition at 150-160 is accepted, and the next rebuild fails. */
  lemma ColonOverlapExample(dev: Device)
    requires Usable(dev) && Grain(dev) == 1 && FirstUsableSector(dev) == 34 && LastUsableSector(dev) >= 1000
    ensures var parts := [Part(150, 160)];
      && InBounds(MapOf(dev, parts))
      && LexSpec("100:200", 34, 149, dev.logsec, false) == Some(Range(100, 200))
      && Accepted(dev, Range(100, 200)) == Some(Part(100, 200))
      && !AllLegal(ZonesOf(MapOf(dev, Insert(parts, Part(100, 200)))))
  {
    hide ZonesOf, AllLegal, LexSpec, Dec;
    var parts := [Part(150, 160)];
    assert Fitted(34, parts, 0);
    DecOfHundreds();
    assert "100:200" == Dec(100) + ":" + Dec(200);
    ColonMeans(100, 200, 34, 149, dev.logsec, false);
    AcceptedRebuildsIff(dev, parts, Range(100, 200));
    assert !Disjoint(Part(100, 200), parts[0]);
  }

  lemma DecOfHundreds()
    ensures Dec(100) == "100" && Dec(200) == "200"
  {
  }

  // ---- The last usable sector is the disk's last sector ----

  /** lookup_last_usable_sector consults no partition table. */
  function LookupLastUsableSector(dev: Device): nat {
    if dev.logsec == 0 then 0 else Pred64(dev.size / dev.logsec)
  }

  /** An accepted range leaves the 33 sectors of the backup GPT alone exactly when it ends before them. */
  lemma ClearOfBackupIff(dev: Device, r: Range)
    requires Usable(dev) && dev.layout == LayoutNone && dev.logsec == 512 && dev.size >= 67 * 512
    requires dev.lastUsable == LookupLastUsableSector(dev) && Accepted(dev, r).Some?
    ensures var lbas := dev.size / 512;
      var table := GptGeometry.BackupArray(lbas, GptGeometry.EditLbas(512));
      && table == lbas - 33
      && (Disjoint(Accepted(dev, r).value, Part(table, lbas - 1)) <==> r.last < table)
  {
  }

  /** The default "100%" in the trailing empty zone always runs into the backup GPT. */
  lemma HundredPercentMeetsBackup(dev: Device, z: Zone, erange: bool)
    requires Usable(dev) && dev.layout == LayoutNone && dev.logsec == 512
    requires dev.lastUsable == LookupLastUsableSector(dev)
    requires 1 <= z.first < z.last == LastUsableSector(dev)
    requires Request(dev, z, "100%", erange).Some?
    ensures Request(dev, z, "100%", erange).value.last == dev.size / 512 - 2
  {
    hide LexSpec;
    DecOfHundreds();
    assert Dec(100) + "%" == "100%";
    SectorBound(dev);
    PercentMeans(100, z.first, z.last, 512, erange);
  }

  // ---- The interface's own sequence of calls ----

  /** partition_base_p: a loaded, partitioned device whose selected zone is neither metadata nor a partition. */
  method PartitionBaseP(unloaded: bool, unpartitioned: bool, b: Blockobj) returns (ok: bool)
    requires b.Valid() && (!unloaded && !unpartitioned ==> b.zone != null)
    requires forall i :: 0 <= i < |b.zs| && b.zs[i].use.Held? ==> b.zs[i].use.index < |b.ps|
    ensures b.zone != null ==> 0 <= b.zone.zoneno < |b.zs|
    ensures ok <==> !unloaded && !unpartitioned && IsEmptyAt(b.zs, b.zone.zoneno)
  {
    if b.zone != null {
      b.SelectedNode();
    }
    if unloaded || unpartitioned {
      return false;
    }
    ghost var i := b.zone.zoneno;
    assert Carries(b.nodes[i], b.zs[i], i, b.ps);
    ok := b.zone.rep != RepMetadata && b.zone.p == null;
  }

  /** The chain on screen is that of the device's list, and the list is fitted. */
  ghost predicate InStep(dev: Device, list: PartitionList, b: Blockobj)
    requires Sane(dev)
    reads list, list.nodes, b, b.nodes
  {
    && list.Valid() && b.Valid() && b.ps == list.nodes && b.zone != null
    && InBounds(MapOf(dev, Parts(list.nodes)))
    && b.zs == ZonesOf(MapOf(dev, Parts(list.nodes)))
  }

  /** The kernel's directory lists exactly these partitions, in some order. */
  predicate Lists(found: seq<Listing>, parts: seq<Part>) {
    AllListable(found) && multiset(PartsOf(found)) == multiset(parts)
  }

  /** A list that the kernel could report: sorted, each range non-empty and within the usable sectors. */
  predicate Reportable(dev: Device, parts: seq<Part>)
    requires Sane(dev)
  {
    && Sorted(parts)
    && forall k :: 0 <= k < |parts| ==>
         FirstUsableSector(dev) <= parts[k].first <= parts[k].last <= LastUsableSector(dev)
  }

  /** A rescan's list can be mapped exactly when the partitions listed are disjoint, and then it is they. */
  lemma RescannedIff(dev: Device, found: seq<Part>, left: seq<Part>)
    requires Usable(dev) && Reportable(dev, left) && multiset(found) == multiset(left)
    ensures AllLegal(ZonesOf(MapOf(dev, InsertAll(found)))) <==> InBounds(MapOf(dev, left))
    ensures InBounds(MapOf(dev, left)) ==> InsertAll(found) == left
  {
    hide ZonesOf, AllLegal, InsertAll, Sorted, Fitted, Past;
    var d, f := MapOf(dev, left), InsertAll(found);
    RebuildSucceedsIff(MapOf(dev, f));
    if Fitted(d.first, left, 0) {
      RescanOrderIrrelevant(found, d.first, left);
      PastBounds(d.first, left, d.last + 1);
    }
    if Fitted(d.first, f, 0) {
      InsertAllSorts(found);
      FittedStarts(d.first, f);
      SortedIsUnique(f, left);
    }
  }

  lemma FittedStarts(sector: nat, parts: seq<Part>)
    requires Fitted(sector, parts, 0)
    ensures DistinctStarts(parts)
  {
    FittedPairs(sector, parts, 0);
  }

  /** What follows a change of the table: the kernel's partitions are listed again and the chain rebuilt. */
  method Refresh(dev: Device, list: PartitionList, b: Blockobj, found: seq<Listing>, ghost left: seq<Part>)
    returns (rebuilt: bool)
    requires Usable(dev) && list.Valid() && b.Valid()
    requires Reportable(dev, left) && Lists(found, left)
    modifies list, b, b.nodes`live
    ensures rebuilt <==> InBounds(MapOf(dev, left))
    ensures rebuilt ==> InStep(dev, list, b) && Parts(list.nodes) == left
    ensures !rebuilt ==> unchanged(b)
  {
    hide ZonesOf, AllLegal, Selected, Ring, Listed, InsertAll, Reportable, InBounds;
    ghost var d := MapOf(dev, left);
    RescannedIff(dev, PartsOf(found), left);
    if InBounds(d) {
      HasZones(d);
    }
    assert found[..|found|] == found;
    var ok := list.Rescan(found);
    rebuilt := b.UpdateBlockobj(false, true, FirstUsableSector(dev), LastUsableSector(dev), dev.size / dev.logsec,
      list.parts, list.nodes);
    OneNodePerZone(b);
  }

  /**
   psectors_callback up to the table driver: test the selected zone, lex the spec, and check the range as
   add_partition and the driver do. The range as lexed; None where it stops.
   */
  method RequestFor(dev: Device, list: PartitionList, b: Blockobj, spec: string, erange: bool)
    returns (r: Option<Range>)
    requires Usable(dev) && InStep(dev, list, b)
    ensures 0 <= b.zone.zoneno
    ensures Requested(dev, Parts(list.nodes), b.zone.zoneno, spec, erange)
      == if r.Some? then Accepted(dev, r.value) else None
    ensures r.Some? ==> Accepted(dev, r.value).Some?
  {
    hide InBounds, ZonesOf, LexSpec, Accepted, Ring, Listed;
    ghost var d := MapOf(dev, Parts(list.nodes));
    b.SelectedNode();
    ghost var i := b.zone.zoneno;
    EachPartitionOneZone(d);
    var empty := PartitionBaseP(false, false, b);
    if !empty {
      return None;
    }
    EmptyZoneBounds(d, i);
    ZoneReadout(b, i);
    var ok, f, l := LexPartSpec(spec, b.zone.fsector, b.zone.lsector, dev.logsec, erange);
    if !ok || Accepted(dev, Range(f, l)).None? {
      return None;
    }
    r := Some(Range(f, l));
  }

  lemma InsertReportable(dev: Device, parts: seq<Part>, r: Range)
    requires Usable(dev) && InBounds(MapOf(dev, parts)) && Accepted(dev, r).Some?
    ensures Reportable(dev, Insert(parts, Accepted(dev, r).value))
  {
    hide Insert, Accepted, Fitted, Past, Sorted;
    var p, d := Accepted(dev, r).value, MapOf(dev, parts);
    AcceptedInRange(dev, r);
    FittedIsReportable(dev, parts);
    InsertSorts(parts, p);
    forall k | 0 <= k < |Insert(parts, p)|
      ensures var q := Insert(parts, p)[k]; d.first <= q.first <= q.last <= d.last
    {
      InsertMembers(parts, p, Insert(parts, p)[k]);
    }
  }

  lemma FittedIsReportable(dev: Device, parts: seq<Part>)
    requires Usable(dev) && InBounds(MapOf(dev, parts))
    ensures Reportable(dev, parts)
  {
    hide Fitted, Past;
    var d := MapOf(dev, parts);
    FittedPairs(d.first, parts, 0);
    PastBounds(d.first, parts, d.last + 1);
  }

  /**
   psectors_callback through to the redrawn map, for any spec. The table driver may still refuse (stored
   says whether it stored the entry); if it does not, the kernel lists the partitions of the new table
   in any order. The list changes as Step says and the map is rebuilt exactly when the new partition
   meets no other, which for a spec without a colon is always.
   */
  method CreatePartition(dev: Device, list: PartitionList, b: Blockobj, spec: string, erange: bool,
                         stored: bool, found: seq<Listing>)
    returns (made: bool, rebuilt: bool)
    requires Usable(dev) && InStep(dev, list, b)
    requires stored ==> Lists(found, Step(dev, Parts(list.nodes), Create(b.zone.zoneno, spec, erange)))
    modifies list, b, b.nodes`live
    ensures var p := Requested(dev, old(Parts(list.nodes)), old(b.zone.zoneno), spec, erange);
      && (made <==> stored && p.Some?)
      && (rebuilt <==> (made ==> MeetsNone(p.value, old(Parts(list.nodes)))))
    ensures !Has(spec, ':') ==> rebuilt
    ensures rebuilt ==> InStep(dev, list, b)
    ensures rebuilt && made ==>
      Parts(list.nodes) == Step(dev, old(Parts(list.nodes)), Create(old(b.zone.zoneno), spec, erange))
    ensures !made ==> Parts(list.nodes) == old(Parts(list.nodes))
    ensures !rebuilt ==> unchanged(b)
  {
    hide InBounds, ZonesOf, Insert, Request, Accepted, Ring, Listed, AllLegal, Reportable;
    ghost var parts := Parts(list.nodes);
    ghost var i := b.zone.zoneno;
    var r := RequestFor(dev, list, b, spec, erange);
    if r.None? || !stored {
      return false, true;
    }
    AcceptedRebuildsIff(dev, parts, r.value);
    InsertReportable(dev, parts, r.value);
    if !Has(spec, ':') {
      CreateKeepsBounds(dev, parts, i, spec, erange);
    }
    rebuilt := Refresh(dev, list, b, found, Step(dev, parts, Create(i, spec, erange)));
    made := true;
  }

  /** wipe_partition of the k-th partition of the list, its table entry cleared: the rescan and the rebuild. */
  method DeletePartition(dev: Device, list: PartitionList, b: Blockobj, ghost k: nat, cleared: bool,
                         found: seq<Listing>)
    requires Usable(dev) && InStep(dev, list, b) && k < |list.nodes|
    requires cleared ==> Lists(found, Step(dev, Parts(list.nodes), Delete(k)))
    modifies list, b, b.nodes`live
    ensures InStep(dev, list, b)
    ensures Parts(list.nodes)
      == if cleared then Step(dev, old(Parts(list.nodes)), Delete(k)) else old(Parts(list.nodes))
  {
    if !cleared {
      return;
    }
    ghost var parts := Parts(list.nodes);
    DeleteKeepsBounds(MapOf(dev, parts), k);
    FittedIsReportable(dev, Step(dev, parts, Delete(k)));
    var rebuilt := Refresh(dev, list, b, found, Step(dev, parts, Delete(k)));
  }

  lemma OneNodePerZone(b: Blockobj)
    requires b.Valid()
    ensures |b.nodes| == |b.zs|
  {
  }

  lemma ZoneReadout(b: Blockobj, i: nat)
    requires b.Valid() && i < |b.nodes|
    ensures |b.zs| == |b.nodes| && b.nodes[i].fsector == b.zs[i].first && b.nodes[i].lsector == b.zs[i].last
  {
  }

  lemma HasZones(d: Disk)
    requires InBounds(d)
    ensures ZonesOf(d) != []
  {
  }
}
