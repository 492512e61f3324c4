/** The linked zone chain of a block object: create_zobj, update_blockobj, free_zchain and the zone moves. */
module ZoneChain {
  import opened Arithmetic
  import opened Zones

  /** A partition in its device's list, which is kept in on-disk order. */
  class Partition {
    var fsector: nat
    var lsector: nat
    var pnumber: nat
    var next: Partition?

    constructor (fsector: nat, lsector: nat, pnumber: nat, next: Partition?)
      ensures this.fsector == fsector && this.lsector == lsector && this.pnumber == pnumber && this.next == next
    {
      this.fsector, this.lsector, this.pnumber, this.next := fsector, lsector, pnumber, next;
    }
  }

  ghost predicate Listed(head: Partition?, ps: seq<Partition>)
    reads ps
  {
    && head == (if ps == [] then null else ps[0])
    && (forall i, j :: 0 <= i < j < |ps| ==> ps[i] != ps[j])
    && forall i {:trigger ps[i].next} :: 0 <= i < |ps| ==> ps[i].next == if i + 1 < |ps| then ps[i + 1] else null
  }

  ghost function Parts(ps: seq<Partition>): (parts: seq<Part>)
    reads ps
    ensures |parts| == |ps|
  {
    seq(|ps|, i requires 0 <= i < |ps| reads ps => Part(ps[i].fsector, ps[i].lsector))
  }

  /** The rep character: none for a partition, 'm' for metadata, 'e' for empty space. */
  datatype Rep = RepNone | RepMetadata | RepEmpty

  function RepOf(use: Use): Rep {
    match use
    case Held(_) => RepNone
    case Metadata => RepMetadata
    case Empty => RepEmpty
  }

  function PartitionOf(use: Use, ps: seq<Partition>): Partition? {
    if use.Held? && use.index < |ps| then ps[use.index] else null
  }

  /** A zone object; live says that it has not been freed. */
  class Zobj {
    var zoneno: int
    var fsector: nat
    var lsector: nat
    var p: Partition?
    var rep: Rep
    var following: int
    var prev: Zobj?
    var next: Zobj?
    ghost var live: bool

    constructor (zoneno: int, fsector: nat, lsector: nat, p: Partition?, rep: Rep, prev: Zobj?)
      ensures this.zoneno == zoneno && this.fsector == fsector && this.lsector == lsector && this.p == p
      ensures this.rep == rep && this.prev == prev && this.next == null && live
    {
      this.zoneno, this.fsector, this.lsector, this.p, this.rep := zoneno, fsector, lsector, p, rep;
      this.prev, this.next, live := prev, null, true;
      following := 0;
    }

    /** free(3): the object must not have been freed before. */
    method Free()
      requires live
      modifies this`live
      ensures !live
    {
      live := false;
    }
  }

  /** Node i carries zone zs[i] over the partition list ps. */
  ghost predicate Carries(n: Zobj, z: Zone, i: int, ps: seq<Partition>)
    reads n
  {
    && n.live && n.zoneno == i && n.fsector == z.first && n.lsector == z.last
    && n.rep == RepOf(z.use) && n.p == PartitionOf(z.use, ps)
  }

  /** A chain under construction: linked both ways, open at both ends. */
  ghost predicate Open(nodes: seq<Zobj>, zs: seq<Zone>, ps: seq<Partition>)
    reads nodes
  {
    && |nodes| == |zs|
    && (forall i, j :: 0 <= i < j < |nodes| ==> nodes[i] != nodes[j])
    && (forall i :: 0 <= i < |nodes| ==> Carries(nodes[i], zs[i], i, ps))
    && (forall i {:trigger nodes[i].prev} :: 0 <= i < |nodes| ==> nodes[i].prev == if i > 0 then nodes[i - 1] else null)
    && (forall i {:trigger nodes[i].next} :: 0 <= i < |nodes| ==>
          nodes[i].next == if i + 1 < |nodes| then nodes[i + 1] else null)
  }

  ghost function Last(nodes: seq<Zobj>): Zobj? {
    if nodes == [] then null else nodes[|nodes| - 1]
  }

  /** The finished chain: circular both ways, numbered from 0, each node counting those after it. */
  ghost predicate Ring(nodes: seq<Zobj>, zs: seq<Zone>, ps: seq<Partition>)
    reads nodes
  {
    var k := |nodes|;
    && k == |zs|
    && (forall i, j :: 0 <= i < j < k ==> nodes[i] != nodes[j])
    && (forall i :: 0 <= i < k ==> Carries(nodes[i], zs[i], i, ps))
    && (forall i :: 0 <= i < k ==> nodes[i].following == k - 1 - i)
    && (forall i {:trigger nodes[i].prev} :: 0 <= i < k ==>
          nodes[i].prev == if i > 0 then nodes[i - 1] else nodes[k - 1])
    && (forall i {:trigger nodes[i].next} :: 0 <= i < k ==>
          nodes[i].next == if i + 1 < k then nodes[i + 1] else nodes[0])
  }

  /** create_zobj onto the end of an open chain; null when its range or number is refused. */
  method CreateZobj(prev: Zobj?, zno: nat, fsector: nat, lsector: nat, p: Partition?, rep: Rep,
                    ghost use: Use, ghost nodes: seq<Zobj>, ghost zs: seq<Zone>, ghost ps: seq<Partition>)
    returns (z: Zobj?)
    requires Open(nodes, zs, ps) && prev == Last(nodes) && zno == |nodes|
    requires p == PartitionOf(use, ps) && rep == RepOf(use)
    modifies nodes
    ensures z == null <==> !Legal(Zone(fsector, lsector, use), zno)
    ensures z == null ==> Open(nodes, zs, ps)
    ensures z != null ==> fresh(z) && Open(nodes + [z], zs + [Zone(fsector, lsector, use)], ps)
  {
    if lsector < fsector {
      return null;
    }
    if (fsector == 0) != (zno == 0) {
      return null;
    }
    z := new Zobj(zno, fsector, lsector, p, rep, prev);
    LinkLast(prev, z, nodes, zs, Zone(fsector, lsector, use), ps);
  }

  /** The link from the chain's last node to a new one. */
  method LinkLast(prev: Zobj?, z: Zobj, ghost nodes: seq<Zobj>, ghost zs: seq<Zone>, ghost zone: Zone,
                  ghost ps: seq<Partition>)
    requires Open(nodes, zs, ps) && prev == Last(nodes) && z !in nodes
    requires Carries(z, zone, |nodes|, ps) && z.prev == prev && z.next == null
    modifies if prev == null then {} else {prev}
    ensures Open(nodes + [z], zs + [zone], ps)
  {
    hide RepOf, PartitionOf;
    if prev != null {
      prev.next := z;
    }
    ghost var k, ns, all := |nodes|, nodes + [z], zs + [zone];
    forall i | 0 <= i < k
      ensures Carries(ns[i], all[i], i, ps)
      ensures ns[i].prev == (if i > 0 then ns[i - 1] else null) && ns[i].next == ns[i + 1]
    {
      assert old(Carries(nodes[i], zs[i], i, ps));
    }
  }

  lemma IllegalInside(all: seq<Zone>, zs: seq<Zone>, z: Zone, rest: seq<Zone>)
    requires all == zs + [z] + rest && !Legal(z, |zs|)
    ensures !AllLegal(all)
  {
    assert all[|zs|] == z;
  }

  lemma LegalPush(zs: seq<Zone>, z: Zone)
    requires AllLegal(zs) && Legal(z, |zs|)
    ensures AllLegal(zs + [z])
  {
  }

  /** What the construction keeps: an open chain of legal zones. */
  ghost predicate Building(ns: seq<Zobj>, zs: seq<Zone>, ps: seq<Partition>, z: Zobj?, zones: nat)
    reads ns
  {
    && Open(ns, zs, ps) && z == Last(ns) && zones == |ns| == |zs| && AllLegal(zs)
  }

  /** The first half of update_blockobj: an open chain for the whole map, or failure at the first illegal zone. */
  method BuildChain(partitioned: bool, first: nat, last: nat, sectors: nat, head: Partition?, ghost ps: seq<Partition>)
    returns (ok: bool, z: Zobj?, zones: nat, ghost ns: seq<Zobj>)
    requires Listed(head, ps)
    ensures var d := Disk(partitioned, first, last, sectors, Parts(ps));
      && (ok <==> AllLegal(ZonesOf(d)))
      && (ok ==> Open(ns, ZonesOf(d), ps) && z == Last(ns) && zones == |ns|)
    ensures fresh(ns)
  {
    hide Body, Tail, Past, Building, Open, AllLegal;
    ghost var d := Disk(partitioned, first, last, sectors, Parts(ps));
    var sector;
    z, zones, sector, ns := BuildHead(partitioned, first, sectors, ps, d);
    ok, z, zones, sector, ns := BuildBody(z, zones, sector, head, ns, Head(d), ps, d);
    if ok {
      ok, z, zones, ns := BuildTail(z, zones, sector, last, sectors, ns, Head(d) + Body(Start(d), d.parts, 0), ps, d);
    }
  }

  /** The metadata zone in front of the first usable sector of a partitioned disk. */
  method BuildHead(partitioned: bool, first: nat, sectors: nat, ghost ps: seq<Partition>, ghost d: Disk)
    returns (z: Zobj?, zones: nat, sector: nat, ghost ns: seq<Zobj>)
    requires d.partitioned == partitioned && d.first == first && d.sectors == sectors
    ensures Building(ns, Head(d), ps, z, zones) && sector == Start(d) && fresh(ns)
  {
    hide Open, AllLegal;
    z, zones, ns := null, 0, [];
    sector := sectors + 1;
    NothingBuilt(ps);
    if partitioned {
      sector := first;
      if sector != 0 {
        LegalPush([], Zone(zones, sector - 1, Metadata));
        z := CreateZobj(z, zones, zones, sector - 1, null, RepMetadata, Metadata, ns, [], ps);
        assert [] + [z] == [z] && [] + Head(d) == Head(d);
        zones, ns := zones + 1, [z];
      }
    }
  }

  lemma NothingBuilt(ps: seq<Partition>)
    ensures Building([], [], ps, null, 0)
  {
  }

  /** One pass of the partition loop: the gap before a partition, if any, then its own zone. */
  method PlacePartition(z0: Zobj?, zones0: nat, sector: nat, p: Partition,
                        ghost k: nat, ghost ns0: seq<Zobj>, ghost zs0: seq<Zone>, ghost ps: seq<Partition>,
                        ghost all: seq<Zone>, ghost rest: seq<Zone>)
    returns (ok: bool, z: Zobj?, zones: nat, ghost ns: seq<Zobj>, ghost zs: seq<Zone>)
    requires k < |ps| && p == ps[k]
    requires Building(ns0, zs0, ps, z0, zones0)
    requires all == zs0 + (Gap(sector, Part(p.fsector, p.lsector)) + [Zone(p.fsector, p.lsector, Held(k))] + rest)
    modifies ns0
    ensures ok ==> zs == zs0 + (Gap(sector, Part(p.fsector, p.lsector)) + [Zone(p.fsector, p.lsector, Held(k))])
    ensures ok ==> Building(ns, zs, ps, z, zones)
    ensures !ok ==> !AllLegal(all)
    ensures forall i :: 0 <= i < |ns| ==> ns[i] in ns0 || fresh(ns[i])
  {
    hide Open, AllLegal, Legal;
    z, zones, ns, zs := z0, zones0, ns0, zs0;
    ghost var held := Zone(p.fsector, p.lsector, Held(k));
    if sector != p.fsector {
      ghost var gap := Zone(sector, Pred64(p.fsector), Empty);
      var tmpz := CreateZobj(z, zones, sector, Pred64(p.fsector), null, RepEmpty, Empty, ns, zs, ps);
      if tmpz == null {
        assert all == zs + [gap] + ([held] + rest);
        IllegalInside(all, zs, gap, [held] + rest);
        return false, z, zones, ns, zs;
      }
      LegalPush(zs, gap);
      z, zones, ns, zs := tmpz, zones + 1, ns + [tmpz], zs + [gap];
    }
    var tmpz := CreateZobj(z, zones, p.fsector, p.lsector, p, RepNone, Held(k), ns, zs, ps);
    if tmpz == null {
      assert all == zs + [held] + rest;
      IllegalInside(all, zs, held, rest);
      return false, z, zones, ns, zs;
    }
    LegalPush(zs, held);
    ok, z, zones, ns, zs := true, tmpz, zones + 1, ns + [tmpz], zs + [held];
  }

  /** The partition loop. */
  method BuildBody(z0: Zobj?, zones0: nat, sector0: nat, head: Partition?,
                   ghost ns0: seq<Zobj>, ghost zs0: seq<Zone>, ghost ps: seq<Partition>, ghost d: Disk)
    returns (ok: bool, z: Zobj?, zones: nat, sector: nat, ghost ns: seq<Zobj>)
    requires Listed(head, ps) && d.parts == Parts(ps)
    requires Building(ns0, zs0, ps, z0, zones0)
    requires zs0 == Head(d) && sector0 == Start(d)
    modifies ns0
    ensures ok ==> sector == Past(sector0, d.parts, 0)
    ensures ok ==> Building(ns, zs0 + Body(sector0, d.parts, 0), ps, z, zones)
    ensures !ok ==> !AllLegal(ZonesOf(d))
    ensures forall i :: 0 <= i < |ns| ==> ns[i] in ns0 || fresh(ns[i])
  {
    hide Building, AllLegal, Tail, Gap, Body;
    z, zones, sector, ns := z0, zones0, sector0, ns0;
    ghost var zs, k := zs0, 0;
    ghost var tail := Tail(Past(sector0, d.parts, 0), d);
    ghost var body := zs0 + Body(sector0, d.parts, 0);
    var p := head;
    while p != null
      invariant k <= |ps| && p == (if k < |ps| then ps[k] else null)
      invariant zs + Body(sector, d.parts, k) == body
      invariant Past(sector, d.parts, k) == Past(sector0, d.parts, 0)
      invariant Building(ns, zs, ps, z, zones)
      invariant forall i :: 0 <= i < |ns| ==> ns[i] in ns0 || fresh(ns[i])
      decreases |ps| - k
    {
      ghost var more := Body(p.lsector + 1, d.parts, k + 1);
      BodyStep(sector, d.parts, k);
      ghost var here := Gap(sector, d.parts[k]) + [Zone(p.fsector, p.lsector, Held(k))];
      Regroup(zs, here, more, tail);
      ok, z, zones, ns, zs := PlacePartition(z, zones, sector, p, k, ns, zs, ps, body + tail, more + tail);
      if !ok {
        assert body + tail == ZonesOf(d);
        return;
      }
      sector := p.lsector + 1;
      p := p.next;
      k := k + 1;
    }
    BodyEnd(sector, d.parts);
    assert zs == zs + Body(sector, d.parts, k);
    ok := true;
  }

  lemma BodyEnd(sector: nat, parts: seq<Part>)
    ensures Body(sector, parts, |parts|) == []
  {
  }

  lemma Regroup(zs: seq<Zone>, here: seq<Zone>, more: seq<Zone>, tail: seq<Zone>)
    ensures zs + (here + more) + tail == zs + (here + (more + tail))
    ensures zs + here + more == zs + (here + more)
  {
  }

  /** The empty and metadata zones after the last partition. */
  method BuildTail(z0: Zobj?, zones0: nat, sector0: nat, last: nat, sectors: nat,
                   ghost ns0: seq<Zobj>, ghost zs0: seq<Zone>, ghost ps: seq<Partition>, ghost d: Disk)
    returns (ok: bool, z: Zobj?, zones: nat, ghost ns: seq<Zobj>)
    requires d.last == last && d.sectors == sectors
    requires Building(ns0, zs0, ps, z0, zones0)
    requires zs0 + Tail(sector0, d) == ZonesOf(d)
    modifies ns0
    ensures ok <==> AllLegal(ZonesOf(d))
    ensures ok ==> Open(ns, ZonesOf(d), ps) && z == Last(ns) && zones == |ns|
    ensures forall i :: 0 <= i < |ns| ==> ns[i] in ns0 || fresh(ns[i])
  {
    hide Open, AllLegal, Legal, ZonesOf;
    z, zones, ns := z0, zones0, ns0;
    ghost var zs := zs0;
    var sector := sector0;
    if sector < sectors {
      if sector < last + 1 {
        ghost var gap := Zone(sector, last, Empty);
        var tmpz := CreateZobj(z, zones, sector, last, null, RepEmpty, Empty, ns, zs, ps);
        if tmpz == null {
          assert zs + [gap] + Tail(sector0, d)[1..] == ZonesOf(d);
          IllegalInside(ZonesOf(d), zs, gap, Tail(sector0, d)[1..]);
          return false, z, zones, ns;
        }
        LegalPush(zs, gap);
        z, zones, ns, zs := tmpz, zones + 1, ns + [tmpz], zs + [gap];
        sector := last;
      }
      if sector < sectors {
        ghost var end := Zone(sector, sectors - 1, Metadata);
        assert ZonesOf(d) == zs + [end];
        var tmpz := CreateZobj(z, zones, sector, sectors - 1, null, RepMetadata, Metadata, ns, zs, ps);
        if tmpz == null {
          assert zs + [end] + [] == ZonesOf(d);
          IllegalInside(ZonesOf(d), zs, end, []);
          return false, z, zones, ns;
        }
        LegalPush(zs, end);
        z, zones, ns, zs := tmpz, zones + 1, ns + [tmpz], zs + [end];
      }
    }
    assert zs == ZonesOf(d);
    ok := true;
  }

  /** The device's entry on screen: its chain, and the selected zone, null only when there is no chain. */
  class Blockobj {
    var zchain: Zobj?
    var zone: Zobj?
    ghost var nodes: seq<Zobj>
    ghost var zs: seq<Zone>
    ghost var ps: seq<Partition>

    ghost predicate Valid()
      reads this, nodes
    {
      && Ring(nodes, zs, ps)
      && zchain == (if nodes == [] then null else nodes[0])
      && (if nodes == [] then zone == null else zone != null && zone in nodes)
    }

    constructor ()
      ensures Valid() && nodes == []
    {
      zchain, zone, nodes, zs, ps := null, null, [], [], [];
    }

    /** free_zchain: every node is freed once, none is read after it is freed, and the walk ends. */
    method FreeZchain()
      requires Ring(nodes, zs, ps) && zchain == (if nodes == [] then null else nodes[0])
      modifies this`zchain, nodes`live
      ensures zchain == null
      ensures forall n :: n in nodes ==> !n.live
    {
      var zstart := zchain;
      if zstart == null {
        return;
      }
      ghost var i, k := 0, |nodes|;
      var more := true;
      while more
        invariant 0 <= i <= k && (more <==> i < k)
        invariant zchain == if i < k then nodes[i] else nodes[0]
        invariant forall j :: 0 <= j < k ==> (nodes[j].live <==> i <= j)
        decreases k - i
      {
        var zt := zchain;
        assert zt.live;
        zchain := zchain.next;
        zt.Free();
        i := i + 1;
        more := zchain != zstart;
      }
      zchain := null;
    }

    /**
     update_blockobj. An unloaded device has no chain. Otherwise the chain is rebuilt from the usable
     bounds and the partition list; if some zone is refused, the old chain stays as it was.
     */
    method UpdateBlockobj(unloaded: bool, partitioned: bool, first: nat, last: nat, sectors: nat, parts: Partition?,
                          ghost list: seq<Partition>)
      returns (ok: bool)
      requires Valid() && Listed(parts, list)
      modifies this, nodes`live
      ensures Valid()
      ensures unloaded ==> ok && nodes == []
      ensures !unloaded ==>
        (ok <==> AllLegal(ZonesOf(Disk(partitioned, first, last, sectors, old(Parts(list))))))
      ensures !ok ==> unchanged(this) && unchanged(nodes)
      ensures ok ==> forall i :: 0 <= i < |old(nodes)| ==> !old(nodes)[i].live
      ensures ok && !unloaded ==>
        && zs == ZonesOf(Disk(partitioned, first, last, sectors, old(Parts(list)))) && ps == list && fresh(nodes)
        && (nodes != [] ==> zone == nodes[Selected(zs, if old(zone) == null then -1 else old(zone.zoneno))])
    {
      hide Open, Ring, AllLegal, ZonesOf, Selected, Listed, Parts;
      if unloaded {
        FreeZchain();
        zone, nodes, zs, ps := null, [], [], [];
        EmptyRing([], [], []);
        return true;
      }
      var zonesel := -1;
      if zone != null {
        SelectedNode();
        zonesel := zone.zoneno;
      }
      ghost var all := ZonesOf(Disk(partitioned, first, last, sectors, Parts(list)));
      var z, zones;
      ghost var ns;
      ok, z, zones, ns := BuildChain(partitioned, first, last, sectors, parts, list);
      if ok {
        zone := null;
        FreeZchain();
        Adopt(z, zones, zonesel, ns, all, list);
      }
    }

    /** use_prev_zone */
    method UsePrevZone()
      requires Valid()
      modifies this`zone
      ensures Valid()
      ensures nodes != [] ==> zone == nodes[LeftOf(old(zone.zoneno), |nodes|)]
    {
      if zone != null {
        SelectedNode();
        zone := zone.prev;
      }
    }

    /** use_next_zone */
    method UseNextZone()
      requires Valid()
      modifies this`zone
      ensures Valid()
      ensures nodes != [] ==> zone == nodes[RightOf(old(zone.zoneno), |nodes|)]
    {
      if zone != null {
        SelectedNode();
        zone := zone.next;
      }
    }

    /** The key loop's calls for a run of left and right keys. */
    method Press(keys: seq<Key>)
      requires Valid()
      modifies this`zone
      ensures Valid()
      ensures nodes != [] ==> zone == nodes[Landed(old(zone.zoneno), |nodes|, keys)]
    {
      hide Ring, LeftOf, RightOf;
      if zone != null {
        SelectedNode();
      }
      ghost var from := if zone != null then zone.zoneno else 0;
      var j := 0;
      while j < |keys|
        invariant j <= |keys| && Valid()
        invariant nodes != [] ==> zone == nodes[Landed(from, |nodes|, keys[..j])]
      {
        if nodes != [] {
          NumberOf(Landed(from, |nodes|, keys[..j]));
        }
        assert keys[..j + 1][..j] == keys[..j];
        if keys[j].KeyRight? {
          UseNextZone();
        } else {
          UsePrevZone();
        }
        j := j + 1;
      }
      assert keys[..j] == keys;
    }

    lemma NumberOf(i: int)
      requires Valid() && 0 <= i < |nodes|
      ensures nodes[i].zoneno == i
    {
      assert Carries(nodes[i], zs[i], i, ps);
    }

    lemma SelectedNode()
      requires Valid() && nodes != []
      ensures 0 <= zone.zoneno < |nodes| && zone == nodes[zone.zoneno]
      ensures zone.prev == nodes[LeftOf(zone.zoneno, |nodes|)] && zone.next == nodes[RightOf(zone.zoneno, |nodes|)]
    {
    }

    /** The end of update_blockobj: links are closed and one zone is selected. */
    method Adopt(last: Zobj?, zones: nat, sel: int,
                 ghost ns: seq<Zobj>, ghost zs': seq<Zone>, ghost ps': seq<Partition>)
      requires Open(ns, zs', ps') && last == Last(ns) && zones == |ns|
      requires zone == null && sel >= -1
      modifies this, ns
      ensures Valid() && nodes == ns && zs == zs' && ps == ps'
      ensures nodes != [] ==> zone == nodes[Selected(zs', sel)]
    {
      hide Selected, Open, Ring, Counted, Scan;
      var zonesel := sel;
      if zonesel >= zones {
        zonesel := if zones != 0 then zones - 1 else 0;
      }
      var z, pick := last, zone;
      if last == null {
        EmptyRing(ns, zs', ps');
      } else {
        z, pick := SelectBack(last, zonesel, ns, zs', ps');
        CloseRing(z, last, ns, zs', ps');
        SelectedByScan(zs', sel, zonesel);
      }
      zchain, zone := z, pick;
      nodes, zs, ps := ns, zs', ps';
    }
  }

  /** The walk with its fallbacks: the runner-up, and then the first zone. */
  method SelectBack(lastz: Zobj, zonesel: int, ghost ns: seq<Zobj>, ghost zs: seq<Zone>, ghost ps: seq<Partition>)
    returns (z: Zobj, zone: Zobj)
    requires Open(ns, zs, ps) && ns != [] && lastz == Last(ns) && -1 <= zonesel < |ns|
    modifies ns`following
    ensures Open(ns, zs, ps) && Counted(ns, 0) && z == ns[0]
    ensures |zs| == |ns| && zone == ns[Scan(zs, zonesel)]
  {
    hide Open, Counted, FirstHit;
    AtNode(ns, zs, ps, 0);
    var choice: Zobj?, firstchoice: Zobj?;
    z, choice, firstchoice := WalkBack(lastz, zonesel, ns, zs, ps);
    if choice == null {
      choice := firstchoice;
      if choice == null {
        choice := z;
      }
    }
    zone := choice;
  }

  lemma EmptyRing(ns: seq<Zobj>, zs: seq<Zone>, ps: seq<Partition>)
    requires Open(ns, zs, ps) && ns == []
    ensures Ring(ns, zs, ps)
  {
  }

  /** What the code can read off node i of an open chain. */
  lemma AtNode(ns: seq<Zobj>, zs: seq<Zone>, ps: seq<Partition>, i: nat)
    requires Open(ns, zs, ps) && i < |ns|
    ensures |zs| == |ns| && ns[i].zoneno == i
    ensures ns[i].prev == if i > 0 then ns[i - 1] else null
    ensures ns[i].p == null && ns[i].rep == RepEmpty <==> zs[i].use == Empty
  {
  }

  /** Every node from i on counts the nodes after it. */
  ghost predicate Counted(nodes: seq<Zobj>, i: nat)
    reads nodes
  {
    forall j :: i <= j < |nodes| ==> nodes[j].following == |nodes| - 1 - j
  }

  /** The walk's test: the number looked for, or with none the first empty space. */
  predicate IsChoice(z: Zobj, zonesel: int)
    reads z
  {
    zonesel == z.zoneno || (zonesel == -1 && z.p == null && z.rep == RepEmpty)
  }

  lemma ChoiceIsHit(ns: seq<Zobj>, zs: seq<Zone>, ps: seq<Partition>, zonesel: int, i: nat)
    requires Open(ns, zs, ps) && i < |ns|
    ensures IsChoice(ns[i], zonesel) <==> Hit(zs, zonesel, i)
  {
    hide Open;
    AtNode(ns, zs, ps, i);
  }

  /** The backward walk: following counts, the zone to select, and the runner-up. */
  method WalkBack(lastz: Zobj, zonesel: int, ghost ns: seq<Zobj>, ghost zs: seq<Zone>, ghost ps: seq<Partition>)
    returns (z: Zobj, zone: Zobj?, firstchoice: Zobj?)
    requires Open(ns, zs, ps) && ns != [] && lastz == Last(ns)
    requires -1 <= zonesel < |ns|
    modifies ns`following
    ensures Open(ns, zs, ps) && Counted(ns, 0) && z == ns[0]
    ensures zone == if FirstHit(zs, zonesel, 0) < |ns| then ns[FirstHit(zs, zonesel, 0)] else null
    ensures zone == null ==> firstchoice == if |ns| > 1 then ns[1] else null
  {
    hide Open, Counted, Carries, FirstHit, Hit, IsChoice;
    z, zone, firstchoice := lastz, null, null;
    ghost var k, i := |ns|, |ns| - 1;
    Count(z, 0, i, ns, zs, ps);
    AtNode(ns, zs, ps, i);
    FirstHitStep(zs, zonesel, k);
    while z.prev != null
      invariant 0 <= i < k == |zs| && z == ns[i] && z.prev == (if i > 0 then ns[i - 1] else null)
      invariant Open(ns, zs, ps) && Counted(ns, i)
      invariant zone == (if FirstHit(zs, zonesel, i + 1) < k then ns[FirstHit(zs, zonesel, i + 1)] else null)
      invariant zone == null ==> firstchoice == (if i + 1 < k then ns[i + 1] else null)
      decreases i
    {
      AtNode(ns, zs, ps, i);
      FirstHitStep(zs, zonesel, i);
      ChoiceIsHit(ns, zs, ps, zonesel, i);
      if IsChoice(z, zonesel) {
        zone := z;
      } else if z.zoneno != 0 {
        firstchoice := z;
      }
      FollowingAt(ns, i);
      Count(z.prev, z.following + 1, i - 1, ns, zs, ps);
      z := z.prev;
      i := i - 1;
      AtNode(ns, zs, ps, i);
    }
    AtNode(ns, zs, ps, 0);
    FirstHitStep(zs, zonesel, 0);
    ChoiceIsHit(ns, zs, ps, zonesel, 0);
    if IsChoice(z, zonesel) {
      zone := z;
    }
  }

  lemma FollowingAt(ns: seq<Zobj>, i: nat)
    requires i < |ns| && Counted(ns, i)
    ensures ns[i].following == |ns| - 1 - i
  {
  }

  /** One count of the walk. */
  method Count(z: Zobj, n: int, ghost i: nat, ghost ns: seq<Zobj>, ghost zs: seq<Zone>, ghost ps: seq<Partition>)
    requires i < |ns| && z == ns[i] && n == |ns| - 1 - i
    requires Open(ns, zs, ps) && Counted(ns, i + 1)
    modifies z`following
    ensures Open(ns, zs, ps) && Counted(ns, i)
  {
    z.following := n;
  }

  /** The two assignments that make the chain circular. */
  method CloseRing(z: Zobj, lastz: Zobj, ghost ns: seq<Zobj>, ghost zs: seq<Zone>, ghost ps: seq<Partition>)
    requires Open(ns, zs, ps) && Counted(ns, 0) && ns != [] && z == ns[0] && lastz == Last(ns)
    modifies z`prev, lastz`next
    ensures Ring(ns, zs, ps)
  {
    z.prev := lastz;
    lastz.next := z;
  }

  // ---- Moves, by zone number ----

  function LeftOf(i: int, k: nat): (r: int)
    requires 0 <= i < k
    ensures 0 <= r < k
  {
    if i == 0 then k - 1 else i - 1
  }

  function RightOf(i: int, k: nat): (r: int)
    requires 0 <= i < k
    ensures 0 <= r < k
  {
    if i + 1 == k then 0 else i + 1
  }

  /** The zone keys of the main input loop. */
  datatype Key = KeyLeft | KeyRight

  function Pressed(i: int, k: nat, key: Key): (r: int)
    requires 0 <= i < k
    ensures 0 <= r < k
  {
    if key.KeyLeft? then LeftOf(i, k) else RightOf(i, k)
  }

  /** The zone number selected after a run of keys. */
  function Landed(i: int, k: nat, keys: seq<Key>): (r: int)
    requires 0 <= i < k
    ensures 0 <= r < k
  {
    if keys == [] then i else Pressed(Landed(i, k, keys[..|keys| - 1]), k, keys[|keys| - 1])
  }

  /** Moves to the right less moves to the left. */
  function Net(keys: seq<Key>): int {
    if keys == [] then 0 else Net(keys[..|keys| - 1]) + if keys[|keys| - 1].KeyLeft? then -1 else 1
  }

  lemma PressedIs(n: int, k: nat, key: Key)
    requires k > 0
    ensures 0 <= n % k < k
    ensures Pressed(n % k, k, key) == (n + if key.KeyLeft? then -1 else 1) % k
  {
    var q, x := n / k, n % k;
    assert n == q * k + x;
    if key.KeyLeft? {
      if x == 0 {
        ModUnique(n - 1, k, q - 1, k - 1);
      } else {
        ModUnique(n - 1, k, q, x - 1);
      }
    } else if x + 1 == k {
      ModUnique(n + 1, k, q + 1, 0);
    } else {
      ModUnique(n + 1, k, q, x + 1);
    }
  }

  /** After any run of keys the selection has moved by their net count, around the ring of k zones. */
  lemma {:induction false} LandedIs(i: int, k: nat, keys: seq<Key>)
    requires 0 <= i < k
    ensures Landed(i, k, keys) == (i + Net(keys)) % k
  {
    if keys == [] {
      ModSmall(i, k);
    } else {
      var n := |keys| - 1;
      LandedIs(i, k, keys[..n]);
      PressedIs(i + Net(keys[..n]), k, keys[n]);
    }
  }

  /** A run of keys comes back to where it started exactly when its net count is a multiple of the zones. */
  lemma ReturnsIff(i: int, k: nat, keys: seq<Key>)
    requires 0 <= i < k
    ensures Landed(i, k, keys) == i <==> Net(keys) % k == 0
  {
    LandedIs(i, k, keys);
    MultiplesOnly(i, Net(keys), k);
  }

  lemma MultiplesOnly(i: int, n: int, k: nat)
    requires 0 <= i < k
    ensures (i + n) % k == i <==> n % k == 0
  {
    var q, x := n / k, n % k;
    assert n == q * k + x;
    if i + x < k {
      ModUnique(i + n, k, q, i + x);
    } else {
      assert (q + 1) * k == q * k + k;
      ModUnique(i + n, k, q + 1, i + x - k);
    }
  }

  function Repeated(key: Key, n: nat): (keys: seq<Key>)
    ensures |keys| == n && forall j :: 0 <= j < n ==> keys[j] == key
  {
    seq(n, j => key)
  }

  lemma {:induction false} NetRepeated(key: Key, n: nat)
    ensures Net(Repeated(key, n)) == if key.KeyLeft? then 0 - n else n
  {
    if n > 0 {
      assert Repeated(key, n)[..n - 1] == Repeated(key, n - 1);
      NetRepeated(key, n - 1);
    }
  }

  /** Left and right undo each other, and k moves either way come back. */
  lemma MovesAreCyclic(i: int, k: nat, key: Key)
    requires 0 <= i < k
    ensures LeftOf(RightOf(i, k), k) == i && RightOf(LeftOf(i, k), k) == i
    ensures Landed(i, k, Repeated(key, k)) == i
  {
    hide Landed, Net, Repeated;
    ReturnsIff(i, k, Repeated(key, k));
    WholeTurn(k, key);
  }

  lemma WholeTurn(k: nat, key: Key)
    requires k > 0
    ensures Net(Repeated(key, k)) % k == 0
  {
    hide Net;
    NetRepeated(key, k);
    ModUnique(Net(Repeated(key, k)), k, if key.KeyLeft? then -1 else 1, 0);
  }

  /** Fewer than k moves of either direction reach any zone j. */
  lemma EveryZoneIsReached(i: int, j: int, k: nat, key: Key) returns (n: nat)
    requires 0 <= i < k && 0 <= j < k
    ensures n < k && Landed(i, k, Repeated(key, n)) == j
  {
    hide Landed, Net;
    var ahead, round := if i <= j then j - i else j - i + k, if i <= j then 0 else 1;
    if key.KeyRight? {
      n := ahead;
    } else {
      n, round := if ahead == 0 then 0 else k - ahead, if ahead == 0 then 0 else round - 1;
    }
    NetRepeated(key, n);
    LandedIs(i, k, Repeated(key, n));
    assert i + Net(Repeated(key, n)) == round * k + j;
    ModUnique(i + Net(Repeated(key, n)), k, round, j);
  }

  /** The test the backward walk applies to zone i. */
  predicate Hit(zs: seq<Zone>, zonesel: int, i: nat) {
    i < |zs| && (zonesel == i || (zonesel == -1 && zs[i].use == Empty))
  }

  function FirstHit(zs: seq<Zone>, zonesel: int, i: nat): (r: nat)
    requires i <= |zs|
    ensures i <= r <= |zs|
    decreases |zs| - i
  {
    if i == |zs| || Hit(zs, zonesel, i) then i else FirstHit(zs, zonesel, i + 1)
  }

  lemma FirstHitStep(zs: seq<Zone>, zonesel: int, i: nat)
    requires i <= |zs|
    ensures FirstHit(zs, zonesel, i) == if i == |zs| || Hit(zs, zonesel, i) then i else FirstHit(zs, zonesel, i + 1)
  {
  }

  /** The zone the backward walk leaves selected. */
  function Scan(zs: seq<Zone>, zonesel: int): (r: nat)
    requires zs != []
    ensures r < |zs|
  {
    if FirstHit(zs, zonesel, 0) < |zs| then FirstHit(zs, zonesel, 0) else if |zs| > 1 then 1 else 0
  }

  lemma {:induction false} FirstHitIsNumber(zs: seq<Zone>, zonesel: nat, i: nat)
    requires i <= |zs| && zonesel < |zs|
    ensures i <= zonesel ==> FirstHit(zs, zonesel, i) == zonesel
    decreases |zs| - i
  {
    if i < |zs| {
      FirstHitIsNumber(zs, zonesel, i + 1);
    }
  }

  lemma {:induction false} FirstHitIsLowestEmpty(zs: seq<Zone>, i: nat)
    requires i <= |zs|
    ensures FirstHit(zs, -1, i) == LowestEmpty(zs, i)
    decreases |zs| - i
  {
    if i < |zs| {
      FirstHitIsLowestEmpty(zs, i + 1);
    }
  }

  lemma SelectedByScan(zs: seq<Zone>, sel: int, zonesel: int)
    requires zs != [] && sel >= -1 && zonesel == Clamped(sel, |zs|)
    ensures Scan(zs, zonesel) == Selected(zs, sel)
  {
    if sel >= 0 {
      FirstHitIsNumber(zs, zonesel, 0);
    } else {
      FirstHitIsLowestEmpty(zs, 0);
    }
  }
}
