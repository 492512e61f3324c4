/**
 The allocator on a GPT disk, end to end: the table's bytes, the device's partition list and the zone
 ring on screen, and when creations and deletions leave the three in agreement.
 */
module AllocatorGpt {
  import opened Arithmetic
  import opened Bytes
  import opened Devices
  import opened Zones
  import opened ZoneChain
  import opened PartSpec
  import opened Allocator
  import opened AllocatorRuns
  import opened Wrappers
  import G = GptLayout
  import Gpt
  import GptEdit
  import GptRuns

  // ---- The partitions of a table ----

  /** The partition in slot z, if it is in use. */
  function InSlot(es: G.Entries, z: nat): seq<Part>
    requires z < G.SLOTS
  {
    var e := GptEdit.Slot(es, z);
    if GptEdit.InUse(e) then [Part(GptEdit.FirstLba(e), GptEdit.LastLba(e))] else []
  }

  /** The partitions of the slots from z on, in slot order. */
  function TableParts(es: G.Entries, z: nat): seq<Part>
    requires z <= G.SLOTS
    decreases G.SLOTS - z
  {
    if z == G.SLOTS then [] else InSlot(es, z) + TableParts(es, z + 1)
  }

  /** A change of one slot changes the table's partitions by what that slot held and holds. */
  lemma {:induction false} OneSlotChanged(es: G.Entries, fs: G.Entries, z: nat, from: nat)
    requires z < G.SLOTS && from <= G.SLOTS
    requires forall k :: 0 <= k < G.SLOTS && k != z ==> GptEdit.Slot(es, k) == GptEdit.Slot(fs, k)
    ensures if from <= z then
        multiset(TableParts(fs, from)) + multiset(InSlot(es, z))
        == multiset(TableParts(es, from)) + multiset(InSlot(fs, z))
      else TableParts(fs, from) == TableParts(es, from)
    decreases G.SLOTS - from
  {
    hide InSlot, GptEdit.Slot, TableParts;
    TableStep(es, from);
    TableStep(fs, from);
    if from < G.SLOTS {
      OneSlotChanged(es, fs, z, from + 1);
      if from != z {
        SameSlot(es, fs, from);
      }
      if from < z {
        SameAdded(multiset(InSlot(es, from)), multiset(TableParts(fs, from + 1)), multiset(TableParts(es, from + 1)),
          multiset(InSlot(es, z)), multiset(InSlot(fs, z)));
      }
    }
  }

  lemma TableStep(es: G.Entries, z: nat)
    requires z <= G.SLOTS
    ensures z == G.SLOTS ==> TableParts(es, z) == []
    ensures z < G.SLOTS ==> TableParts(es, z) == InSlot(es, z) + TableParts(es, z + 1)
  {
  }

  lemma SameAdded(s: multiset<Part>, x: multiset<Part>, y: multiset<Part>, a: multiset<Part>, b: multiset<Part>)
    requires x + a == y + b
    ensures s + x + a == s + y + b
  {
    assert s + x + a == s + (x + a) && s + y + b == s + (y + b);
  }

  lemma SameSlot(es: G.Entries, fs: G.Entries, k: nat)
    requires k < G.SLOTS && GptEdit.Slot(es, k) == GptEdit.Slot(fs, k)
    ensures InSlot(es, k) == InSlot(fs, k)
  {
  }

  /** Every partition a table lists has a slot. */
  lemma {:induction false} SlotHolding(es: G.Entries, from: nat, q: Part) returns (z: nat)
    requires from <= G.SLOTS && q in TableParts(es, from)
    ensures from <= z < G.SLOTS && InSlot(es, z) == [q]
    decreases G.SLOTS - from
  {
    hide GptEdit.Slot, GptEdit.InUse, GptEdit.FirstLba, GptEdit.LastLba;
    if InSlot(es, from) == [q] {
      z := from;
    } else {
      z := SlotHolding(es, from + 1, q);
    }
  }

  /** An add makes the table list one partition more, in its lowest free slot. */
  lemma AddLists(crc: Crc, v: G.Image, e: GptRuns.Edit)
    requires G.Fits(v.ph) && G.Sealable(v.ph) && e.Add? && GptRuns.Applies(v.pe, e)
    ensures multiset(TableParts(GptRuns.Step(crc, v, e).pe, 0))
      == multiset(TableParts(v.pe, 0)) + multiset{Part(e.first, e.last)}
  {
    hide GptRuns.Step, GptEdit.InUse, GptEdit.FirstLba, GptEdit.LastLba, TableParts, GptEdit.LowestFree;
    var z, w := GptRuns.Target(v.pe, e), GptRuns.Step(crc, v, e);
    GptRuns.AddTakesLowest(crc, v, e);
    OneSlotChanged(v.pe, w.pe, z, 0);
    assert InSlot(v.pe, z) == [] && InSlot(w.pe, z) == [Part(e.first, e.last)];
  }

  /** A delete of a used slot makes it list that slot's partition no more. */
  lemma DeleteUnlists(es: G.Entries, z: nat)
    requires z < G.SLOTS
    ensures var fs := GptEdit.Patch(es, z, 0, Zeros(128));
      multiset(TableParts(fs, 0)) + multiset(InSlot(es, z)) == multiset(TableParts(es, 0))
  {
    hide GptEdit.FirstLba, GptEdit.LastLba, TableParts, Put;
    var fs := GptEdit.Patch(es, z, 0, Zeros(128));
    forall k | 0 <= k < G.SLOTS
      ensures k != z ==> GptEdit.Slot(es, k) == GptEdit.Slot(fs, k)
    {
      GptEdit.PatchSlots(es, z, 0, Zeros(128), k);
    }
    GptEdit.PatchSlots(es, z, 0, Zeros(128), z);
    GptRuns.PutWhole(GptEdit.Slot(es, z), Zeros(128));
    OneSlotChanged(es, fs, z, 0);
    assert InSlot(fs, z) == [];
  }

  // ---- Disk, list and ring together ----

  /** A GPT disk that the edits accept, with the bounds that a scan of it caches. */
  predicate GptDisk(dev: Device, d: bytes) {
    && Usable(dev) && dev.layout == LayoutNone && dev.pttable == Some("gpt") && dev.logsec == LBA
    && dev.size == |d| && G.DiskSized(|d|)
    && G.Fits(G.View(d).ph) && G.Sealable(G.View(d).ph)
    && dev.firstUsable == G.FirstUsable(G.View(d).ph) && dev.lastUsable == LookupLastUsableSector(dev)
  }

  /** first_gpt, which lookup_first_usable_sector calls for such a disk. */
  method FirstGpt(disk: array<byte>) returns (r: nat)
    requires G.DiskSized(disk.Length)
    ensures r == G.FirstUsable(G.View(disk[..]).ph)
  {
    Gpt.SliceOfSlice(disk[..], 512, LBA, 40, 48);
    r := LE(disk[512 + 40..512 + 48]);
  }

  /**
   No listed partition starts below the first usable sector of the primary header; with the 34 that
   creation stores there, none meets the primary table.
   */
  lemma ListedClearOfPrimary(dev: Device, d: bytes, parts: seq<Part>, k: nat)
    requires GptDisk(dev, d) && InBounds(MapOf(dev, parts)) && k < |parts|
    ensures G.FirstUsable(G.View(d).ph) <= parts[k].first
    ensures G.FirstUsable(G.View(d).ph) >= 34 ==> Disjoint(parts[k], Part(0, 33))
  {
    FittedPairs(FirstUsableSector(dev), parts, 0);
  }

  /** The used slots of the table hold exactly the list's partitions. */
  predicate Holds(d: bytes, parts: seq<Part>)
    requires G.DiskSized(|d|)
  {
    multiset(TableParts(G.View(d).pe, 0)) == multiset(parts)
  }

  /** After an edit the kernel lists the partitions of the table's used slots, in any order. */
  ghost predicate Announces(kernel: G.Entries -> seq<Listing>) {
    forall es: G.Entries, parts: seq<Part> {:trigger Lists(kernel(es), parts), TableParts(es, 0)} ::
      multiset(TableParts(es, 0)) == multiset(parts) && NoneEmpty(parts) ==> Lists(kernel(es), parts)
  }

  predicate NoneEmpty(parts: seq<Part>) {
    forall i :: 0 <= i < |parts| ==> parts[i].first <= parts[i].last
  }

  lemma KernelLists(kernel: G.Entries -> seq<Listing>, d: bytes, dev: Device, parts: seq<Part>)
    requires Announces(kernel) && G.DiskSized(|d|) && Holds(d, parts)
    requires Sane(dev) && Reportable(dev, parts)
    ensures Lists(kernel(G.View(d).pe), parts)
  {
    hide TableParts, Lists, G.View, Sorted;
    var es := G.View(d).pe;
    assert multiset(TableParts(es, 0)) == multiset(parts);
  }

  /** The entry array as the kernel reads it. */
  method TableOf(disk: array<byte>) returns (es: G.Entries)
    requires G.DiskSized(disk.Length)
    ensures es == G.View(disk[..]).pe
  {
    es := disk[1024..17408];
  }

  // ---- The table's side of an add ----

  /** The lowest free slot, or SLOTS. */
  function FreeSlot(v: G.Image): nat {
    GptEdit.LowestFree(v.pe, 0, G.SLOTS)
  }

  /** The edit that makes a partition. */
  function EditFor(p: Part, code: bytes, random: bytes, name: GptEdit.Encoded): GptRuns.Edit
    requires p.first <= MAX64 && p.last <= MAX64
  {
    GptRuns.Add(code, random, p.first, p.last, name.out)
  }

  /** w is v with partition p stored in its lowest free slot, and committed. */
  predicate Stored(crc: Crc, v: G.Image, w: G.Image, p: Part, code: bytes, random: bytes, name: GptEdit.Encoded) {
    && G.Fits(v.ph) && p.first <= MAX64 && p.last <= MAX64
    && GptRuns.Applies(v.pe, EditFor(p, code, random, name))
    && w == GptRuns.Step(crc, v, EditFor(p, code, random, name))
  }

  /** What a name and a GUID may be. */
  predicate Arguments(name: GptEdit.Encoded, code: Option<bytes>, random: Option<bytes>) {
    && GptEdit.NameFits(name)
    && (code.Some? ==> GptEdit.IsGuid(code.value) && !AllZero(code.value))
    && (random.Some? ==> GptEdit.IsGuid(random.value))
  }

  /** What a refused add leaves: a failure after a slot was chosen zeroes that slot, uncommitted. */
  function Refused(v: G.Image, code: Option<bytes>): G.Image {
    var z := FreeSlot(v);
    if code.Some? && z < G.SLOTS then v.(pe := GptEdit.Patch(v.pe, z, 0, Zeros(128))) else v
  }

  /** add_gpt on a range that add_partition took. Every failure leaves the partitions of the table as they were. */
  method AddToTable(dev: Device, disk: array<byte>, crc: Crc, name: GptEdit.Encoded, r: Range,
                    code: Option<bytes>, random: Option<bytes>)
    returns (made: bool)
    requires GptDisk(dev, disk[..]) && Accepted(dev, r).Some? && Arguments(name, code, random)
    modifies disk
    ensures GptDisk(dev, disk[..])
    ensures var v, w, p := old(G.View(disk[..])), G.View(disk[..]), Accepted(dev, r).value;
      && (made <==> code.Some? && random.Some? && name.complete && FreeSlot(v) < G.SLOTS)
      && (if made then Stored(crc, v, w, p, code.value, random.value, name) else w == Refused(v, code))
  {
    hide G.View, G.Commit, GptEdit.NewEntry, GptEdit.LowestFree, G.GoodTable, LE, AlignUp, G.FirstUsable;
    ghost var v := G.View(disk[..]);
    SectorBound(dev);
    AcceptedInRange(dev, r);
    var reported;
    made, reported := GptEdit.AddGpt(dev, disk, crc, Some(name), r.first, r.last, code, random);
    if made {
      var e := EditFor(Accepted(dev, r).value, code.value, random.value, name);
      G.CommitIsGood(crc, v.(pe := GptRuns.Edited(v.pe, e)));
      GoodIsAccepted(crc, G.View(disk[..]));
    }
  }

  lemma GoodIsAccepted(crc: Crc, v: G.Image)
    requires G.GoodTable(crc, v)
    ensures G.Fits(v.ph) && G.Sealable(v.ph)
  {
  }

  /** A made add: good copies, one partition more, boot sector and usable sectors untouched. */
  lemma AddedToTable(crc: Crc, v: G.Image, e: GptRuns.Edit)
    requires G.Fits(v.ph) && G.Sealable(v.ph) && e.Add? && GptRuns.Applies(v.pe, e)
    ensures var w := GptRuns.Step(crc, v, e);
      && G.GoodTable(crc, w) && w.mbr == v.mbr && w.data == v.data
      && multiset(TableParts(w.pe, 0)) == multiset(TableParts(v.pe, 0)) + multiset{Part(e.first, e.last)}
  {
    hide TableParts, G.Commit, GptRuns.Edited;
    AddLists(crc, v, e);
    G.CommitIsGood(crc, v.(pe := GptRuns.Edited(v.pe, e)));
  }

  /** A refused add: the same partitions; a good table stays good unless a slot was cleared that held bytes. */
  lemma RefusedByTable(crc: Crc, v: G.Image, code: Option<bytes>)
    ensures var w, z := Refused(v, code), FreeSlot(v);
      && w.mbr == v.mbr && w.data == v.data && w.ph == v.ph
      && multiset(TableParts(w.pe, 0)) == multiset(TableParts(v.pe, 0))
      && (G.GoodTable(crc, v) ==>
            (G.GoodTable(crc, w) <==> code.None? || z == G.SLOTS || AllZero(GptEdit.Slot(v.pe, z))))
  {
    hide TableParts, G.GoodTable, GptEdit.InUse, Put, AllZero;
    var z := FreeSlot(v);
    if code.Some? && z < G.SLOTS {
      DeleteUnlists(v.pe, z);
      FreeSlotIsEmpty(v.pe, z);
      if G.GoodTable(crc, v) {
        GptRuns.FailedAddUnseals(crc, v, z);
      }
    }
  }

  lemma FreeSlotIsEmpty(es: G.Entries, z: nat)
    requires z < G.SLOTS && !GptEdit.InUse(GptEdit.Slot(es, z))
    ensures InSlot(es, z) == []
  {
  }

  // ---- The table's side of a delete ----

  /** The disk after del_gpt. */
  function Cleared(crc: Crc, v: G.Image, pnumber: nat): G.Image
    requires G.Fits(v.ph) && 1 <= pnumber <= G.SLOTS
  {
    GptRuns.Step(crc, v, GptRuns.Del(pnumber))
  }

  /** del_gpt: the table lists what it did, but for the partition of the number's slot. */
  method DeleteFromTable(dev: Device, disk: array<byte>, crc: Crc, pnumber: nat)
    requires GptDisk(dev, disk[..]) && 1 <= pnumber <= G.SLOTS
    modifies disk
    ensures GptDisk(dev, disk[..])
    ensures var v, w := old(G.View(disk[..])), G.View(disk[..]);
      w == Cleared(crc, v, pnumber) && G.GoodTable(crc, w) && w.mbr == v.mbr && w.data == v.data
    ensures var es := old(G.View(disk[..]).pe);
      multiset(TableParts(G.View(disk[..]).pe, 0)) + multiset(InSlot(es, pnumber - 1)) == multiset(TableParts(es, 0))
  {
    hide TableParts, G.GoodTable, G.View, G.Commit, InSlot, Usable, LE, Put, G.FirstUsable;
    ghost var d, v := disk[..], G.View(disk[..]);
    ghost var es := GptEdit.Patch(v.pe, pnumber - 1, 0, Zeros(128));
    GptEdit.ViewOfPatch(d, pnumber - 1, 0, Zeros(128));
    var ok := GptEdit.DelGpt(disk, crc, pnumber);
    G.CommitIsGood(crc, v.(pe := es));
    GoodIsAccepted(crc, G.View(disk[..]));
    DeleteUnlists(v.pe, pnumber - 1);
  }

  // ---- Creation and deletion, end to end ----

  /** The rescan and the rebuild, once the table holds exactly the partitions of left. */
  method RefreshFromTable(dev: Device, disk: array<byte>, list: PartitionList, b: Blockobj,
                          kernel: G.Entries -> seq<Listing>, ghost left: seq<Part>)
    returns (rebuilt: bool)
    requires Usable(dev) && G.DiskSized(disk.Length) && list.Valid() && b.Valid() && Announces(kernel)
    requires Holds(disk[..], left) && Reportable(dev, left)
    modifies list, b, b.nodes`live
    ensures rebuilt <==> InBounds(MapOf(dev, left))
    ensures rebuilt ==> InStep(dev, list, b) && Parts(list.nodes) == left
  {
    hide InBounds, ZonesOf, TableParts, Parts, Announces, G.View, Lists, Reportable, Holds;
    KernelLists(kernel, disk[..], dev, left);
    var es := TableOf(disk);
    rebuilt := Refresh(dev, list, b, kernel(es), left);
  }

  /** What the table holds after an accepted add is what the list becomes, mappable when they are disjoint. */
  lemma LeftAfterCreate(dev: Device, parts: seq<Part>, r: Range)
    requires Usable(dev) && InBounds(MapOf(dev, parts)) && Accepted(dev, r).Some?
    ensures var p := Accepted(dev, r).value; var left := Insert(parts, p);
      && Reportable(dev, left) && multiset(left) == multiset(parts) + multiset{p}
      && (InBounds(MapOf(dev, left)) <==> MeetsNone(p, parts))
  {
    hide InBounds, ZonesOf, Accepted, Insert, AllLegal, Reportable, MeetsNone;
    AcceptedInRange(dev, r);
    AcceptedRebuildsIff(dev, parts, r);
    InsertReportable(dev, parts, r);
    InsertAdds(parts, Accepted(dev, r).value);
  }

  lemma Cancelled(a: multiset<Part>, b: multiset<Part>, c: multiset<Part>)
    requires a + c == b + c
    ensures a == b
  {
    assert a + c - c == a && b + c - c == b;
  }

  lemma WithoutOne(parts: seq<Part>, k: nat)
    requires k < |parts|
    ensures multiset(parts) == multiset(parts[..k] + parts[k + 1..]) + multiset([parts[k]])
  {
    assert parts == parts[..k] + ([parts[k]] + parts[k + 1..]);
  }

  lemma LeftAfterDelete(dev: Device, parts: seq<Part>, k: nat, held: multiset<Part>)
    requires Usable(dev) && InBounds(MapOf(dev, parts)) && k < |parts|
    requires held + multiset([parts[k]]) == multiset(parts)
    ensures var left := Step(dev, parts, Delete(k));
      Reportable(dev, left) && InBounds(MapOf(dev, left)) && held == multiset(left)
  {
    hide InBounds, Reportable;
    var left := Step(dev, parts, Delete(k));
    WithoutOne(parts, k);
    Cancelled(held, multiset(left), multiset([parts[k]]));
    DeleteKeepsBounds(MapOf(dev, parts), k);
    FittedIsReportable(dev, left);
  }

  /**
   From a spec to a committed table, a rescanned list and a rebuilt ring. It succeeds exactly when the
   range is accepted, the arguments are complete and a slot is free. Boot sector and usable sectors
   never change. A success leaves good copies, and disk, list and ring in agreement unless the new
   partition meets another, which takes a colon range. A failure leaves list and ring as they were, and
   the table as Refused says.
   */
  method CreateGptPartition(dev: Device, disk: array<byte>, crc: Crc, list: PartitionList, b: Blockobj,
                            spec: string, erange: bool, name: GptEdit.Encoded, code: Option<bytes>,
                            random: Option<bytes>, kernel: G.Entries -> seq<Listing>)
    returns (made: bool, rebuilt: bool)
    requires GptDisk(dev, disk[..]) && InStep(dev, list, b) && Holds(disk[..], Parts(list.nodes))
    requires Announces(kernel) && Arguments(name, code, random)
    modifies disk, list, b, b.nodes`live
    ensures GptDisk(dev, disk[..])
    ensures G.View(disk[..]).mbr == old(G.View(disk[..]).mbr) && G.View(disk[..]).data == old(G.View(disk[..]).data)
    ensures var v, p := old(G.View(disk[..])), Requested(dev, old(Parts(list.nodes)), old(b.zone.zoneno), spec, erange);
      && (made <==> p.Some? && code.Some? && random.Some? && name.complete && FreeSlot(v) < G.SLOTS)
      && (rebuilt <==> (made ==> MeetsNone(p.value, old(Parts(list.nodes)))))
      && (if made then Stored(crc, v, G.View(disk[..]), p.value, code.value, random.value, name)
          else G.View(disk[..]) == if p.Some? then Refused(v, code) else v)
    ensures !Has(spec, ':') ==> rebuilt
    ensures rebuilt ==> InStep(dev, list, b) && Holds(disk[..], Parts(list.nodes))
    ensures made ==> G.GoodTable(crc, G.View(disk[..]))
    ensures rebuilt && made ==>
      Parts(list.nodes) == Step(dev, old(Parts(list.nodes)), Create(old(b.zone.zoneno), spec, erange))
    ensures !made ==> Parts(list.nodes) == old(Parts(list.nodes))
  {
    hide InBounds, ZonesOf, Request, Accepted, Ring, Listed, Insert, TableParts, AllLegal, Reportable, Parts;
    hide G.View, Announces, G.GoodTable, Lists, GptRuns.Step, GptRuns.Applies, FreeSlot, Refused, LE;
    ghost var v, parts, i := G.View(disk[..]), Parts(list.nodes), b.zone.zoneno;
    var r := RequestFor(dev, list, b, spec, erange);
    if r.None? {
      return false, true;
    }
    made := AddToTable(dev, disk, crc, name, r.value, code, random);
    if !made {
      RefusedByTable(crc, v, code);
      return false, true;
    }
    AddedToTable(crc, v, EditFor(Accepted(dev, r.value).value, code.value, random.value, name));
    ghost var left := Step(dev, parts, Create(i, spec, erange));
    LeftAfterCreate(dev, parts, r.value);
    if !Has(spec, ':') {
      CreateKeepsBounds(dev, parts, i, spec, erange);
    }
    rebuilt := RefreshFromTable(dev, disk, list, b, kernel, left);
  }

  /** del_gpt on partition k's number, whose slot holds its range, then the rescan and the rebuild. */
  method DeleteGptPartition(dev: Device, disk: array<byte>, crc: Crc, list: PartitionList, b: Blockobj, pnumber: nat,
                            ghost k: nat, kernel: G.Entries -> seq<Listing>)
    requires GptDisk(dev, disk[..]) && InStep(dev, list, b) && Holds(disk[..], Parts(list.nodes))
    requires Announces(kernel) && k < |list.nodes|
    requires 1 <= pnumber <= G.SLOTS && InSlot(G.View(disk[..]).pe, pnumber - 1) == [Parts(list.nodes)[k]]
    modifies disk, list, b, b.nodes`live
    ensures GptDisk(dev, disk[..]) && InStep(dev, list, b) && Holds(disk[..], Parts(list.nodes))
    ensures var v, w := old(G.View(disk[..])), G.View(disk[..]);
      w == Cleared(crc, v, pnumber) && G.GoodTable(crc, w) && w.mbr == v.mbr && w.data == v.data
    ensures Parts(list.nodes) == Step(dev, old(Parts(list.nodes)), Delete(k))
  {
    hide InBounds, ZonesOf, Ring, Listed, TableParts, Parts, Announces, G.GoodTable, G.View, InSlot, Lists, Reportable;
    hide Cleared, Requested, G.FirstUsable, LE;
    ghost var parts := Parts(list.nodes);
    DeleteFromTable(dev, disk, crc, pnumber);
    LeftAfterDelete(dev, parts, k, multiset(TableParts(G.View(disk[..]).pe, 0)));
    var rebuilt := RefreshFromTable(dev, disk, list, b, kernel, Step(dev, parts, Delete(k)));
  }

  // ---- What a commit does to a partition's contents ----

  /** The bytes of a partition. */
  function Contents(d: bytes, p: Part): bytes
    requires p.first <= p.last && LBA * (p.last + 1) <= |d|
  {
    d[LBA * p.first..LBA * (p.last + 1)]
  }

  /** What a partition and the disk's last 33 sectors share, given what those sectors hold. */
  function InBackup(p: Part, n: nat, backup: bytes): bytes
    requires G.DiskSized(n) && |backup| == 16896 && p.first <= p.last && n - 16896 < LBA * (p.last + 1) <= n
  {
    var at := n - 16896;
    backup[(if LBA * p.first < at then 0 else LBA * p.first - at)..LBA * (p.last + 1) - at]
  }

  /**
   A commit leaves a partition's contents alone exactly when the partition ends before the last 33
   sectors, or holds there already the bytes of the backup copy that the commit writes.
   */
  lemma CommitSparesIff(crc: Crc, d: bytes, p: Part)
    requires G.DiskSized(|d|) && G.Fits(G.View(d).ph)
    requires 34 <= p.first <= p.last && LBA * (p.last + 1) <= |d|
    ensures |G.Whole(G.Commit(crc, G.View(d)))| == |d|
    ensures var v := G.View(d); var c := G.Commit(crc, v);
      Contents(G.Whole(c), p) == Contents(d, p) <==>
        || LBA * (p.last + 1) <= |d| - 16896
        || InBackup(p, |d|, c.be + c.bh) == InBackup(p, |d|, v.be + v.bh)
  {
    hide LE, G.Commit, G.View, G.Whole;
    var v, at := G.View(d), |d| - 16896;
    var c := G.Commit(crc, v);
    KeepsData(crc, v);
    ViewLengths(d);
    LastSectors(v);
    LastSectors(c);
    G.ViewIsWhole(d);
    SameBefore(d, G.Whole(c), 17408, at, LBA * p.first, LBA * (p.last + 1));
  }

  lemma KeepsData(crc: Crc, v: G.Image)
    requires G.Fits(v.ph)
    ensures var c := G.Commit(crc, v); c.mbr == v.mbr && c.data == v.data
  {
  }

  lemma ViewLengths(d: bytes)
    requires G.DiskSized(|d|)
    ensures var v := G.View(d); |v.mbr| == 512 && |v.data| == |d| - 34304
  {
  }

  /** Where an image's data area and its backup copy lie on the disk. */
  lemma LastSectors(v: G.Image)
    requires |v.mbr| == 512
    ensures var d := G.Whole(v); var at := 17408 + |v.data|;
      && |d| == at + 16896
      && d[17408..at] == v.data && d[at..] == v.be + v.bh
  {
    var d, at := G.Whole(v), 17408 + |v.data|;
    assert d == (v.mbr + v.ph + v.pe) + v.data + (v.be + v.bh);
  }

  /** Two strings that agree from lo to at agree from a to b exactly when they do on what lies past at. */
  lemma SameBefore(d: bytes, w: bytes, lo: nat, at: nat, a: nat, b: nat)
    requires lo <= a <= b <= |d| == |w| && lo <= at <= |d| && w[lo..at] == d[lo..at]
    ensures w[a..b] == d[a..b] <==>
      || b <= at
      || (var k := if a < at then 0 else a - at; w[at..][k..b - at] == d[at..][k..b - at])
  {
    forall i | lo <= i < at
      ensures w[i] == d[i]
    {
      assert w[lo..at][i - lo] == d[lo..at][i - lo];
    }
    if at < b {
      var k := if a < at then 0 else a - at;
      assert d[at..] == d[at..at + (|d| - at)] && w[at..] == w[at..at + (|d| - at)];
      Gpt.SliceOfSlice(d, at, |d| - at, k, b - at);
      Gpt.SliceOfSlice(w, at, |d| - at, k, b - at);
      assert w[a..at + k] == d[a..at + k];
      SameWithin(d, w, a, at + k, b);
    } else {
      assert w[a..b] == d[a..b];
    }
  }

  lemma SameWithin(d: bytes, w: bytes, a: nat, m: nat, b: nat)
    requires a <= m <= b <= |d| == |w| && w[a..m] == d[a..m]
    ensures w[a..b] == d[a..b] <==> w[m..b] == d[m..b]
  {
    assert w[a..b] == w[a..m] + w[m..b] && d[a..b] == d[a..m] + d[m..b];
    assert w[a..b][m - a..] == w[m..b] && d[a..b][m - a..] == d[m..b];
  }
}
