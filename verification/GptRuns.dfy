/** What every run of GPT edits keeps, what a delete undoes, and where the edits miss. */
module GptRuns {
  import opened Arithmetic
  import opened Bytes
  import opened Devices
  import opened GptLayout
  import opened Gpt
  import opened GptEdit
  import opened Wrappers
  import GptCreate

  // ---- Runs of successful edits ----

  datatype Edit =
    | Add(tguid: bytes, pguid: bytes, first: word64, last: word64, title: bytes)
    | Del(pnumber: nat)
    | Name(pnumber: nat, title: bytes)
    | Uuid(pnumber: nat, uuid: bytes)
    | Flags(pnumber: nat, flags: word64)
    | Flag(pnumber: nat, flag: word64, status: bool)
    | Code(pnumber: nat, tguid: bytes)

  /** The slot an edit stores into: one less than the number for a delete, the number itself for the rest. */
  function Target(es: Entries, e: Edit): int {
    match e
    case Add(_, _, _, _, _) => LowestFree(es, 0, SLOTS)
    case Del(p) => p - 1
    case Name(p, _) => p
    case Uuid(p, _) => p
    case Flags(p, _) => p
    case Flag(p, _, _) => p
    case Code(p, _) => p
  }

  /** The edit's target is a slot of the array, and its arguments have the types of the C prototypes. */
  predicate Applies(es: Entries, e: Edit) {
    && 0 <= Target(es, e) < SLOTS
    && match e
       case Add(t, p, f, l, n) => IsGuid(t) && !AllZero(t) && IsGuid(p) && |n| <= 72
       case Del(_) => true
       case Name(_, n) => |n| <= 72
       case Uuid(_, u) => IsGuid(u)
       case Flags(_, _) => true
       case Flag(_, _, _) => true
       case Code(z, t) => IsGuid(t) && !AllZero(t) && (FirstLba(Slot(es, z)) != 0 || LastLba(Slot(es, z)) != 0)
  }

  function Edited(es: Entries, e: Edit): Entries
    requires Applies(es, e)
  {
    var z := Target(es, e);
    match e
    case Add(t, p, f, l, n) => Patch(es, z, 0, NewEntry(Slot(es, z), t, p, f, l, n))
    case Del(_) => Patch(es, z, 0, Zeros(128))
    case Name(_, n) => Patch(es, z, 56, n)
    case Uuid(_, u) => Patch(es, z, 56, u)
    case Flags(_, f) => Patch(es, z, 48, Word64(f))
    case Flag(_, f, on) => Patch(es, z, 48, Masked(Slot(es, z)[48..56], Word64(f), on))
    case Code(_, t) => Patch(es, z, 0, t)
  }

  function Step(crc: Crc, v: Image, e: Edit): Image
    requires Fits(v.ph) && Applies(v.pe, e)
  {
    Commit(crc, v.(pe := Edited(v.pe, e)))
  }

  lemma EditedSlots(es: Entries, e: Edit, k: nat)
    requires Applies(es, e) && k < SLOTS && k != Target(es, e)
    ensures Slot(Edited(es, e), k) == Slot(es, k)
  {
    var z := Target(es, e);
    match e {
      case Add(t, p, f, l, n) => PatchSlots(es, z, 0, NewEntry(Slot(es, z), t, p, f, l, n), k);
      case Del(_) => PatchSlots(es, z, 0, Zeros(128), k);
      case Name(_, n) => PatchSlots(es, z, 56, n, k);
      case Uuid(_, u) => PatchSlots(es, z, 56, u, k);
      case Flags(_, f) => PatchSlots(es, z, 48, Word64(f), k);
      case Flag(_, f, on) => PatchSlots(es, z, 48, Masked(Slot(es, z)[48..56], Word64(f), on), k);
      case Code(_, t) => PatchSlots(es, z, 0, t, k);
    }
  }

  /** The edit as it takes effect: an add's first sector is rounded up to a physical sector. */
  function Aligned(dev: Device, e: Edit): Edit
    requires Sane(dev) && (e.Add? ==> AlignUp(e.first, Grain(dev)) <= MAX64)
  {
    if e.Add? then e.(first := AlignUp(e.first, Grain(dev))) else e
  }

  /** What an edit leaves in its slot: one field changed, the rest of the entry as it was. */
  lemma EditStores(es: Entries, e: Edit)
    requires Applies(es, e)
    ensures var was, now := Slot(es, Target(es, e)), Slot(Edited(es, e), Target(es, e));
      match e
      case Add(t, p, f, l, n) =>
        && now[..16] == t && now[16..32] == p && FirstLba(now) == f && LastLba(now) == l && AllZero(now[48..56])
        && now[56..56 + |n|] == n && now[56 + |n|..] == was[56 + |n|..]
      case Del(_) => AllZero(now)
      case Name(_, n) => now == was[..56] + n + was[56 + |n|..]
      case Uuid(_, u) => now == was[..56] + u + was[72..]
      case Flags(_, f) => now == was[..48] + Word64(f) + was[56..]
      case Flag(_, f, on) =>
        && now[..48] == was[..48] && now[56..] == was[56..]
        && forall i :: 0 <= i < 8 ==> now[48 + i] == MaskByte(was[48 + i], Word64(f)[i], on)
      case Code(_, t) => now == t + was[16..]
  {
    hide LE, InUse;
    var z, was := Target(es, e), Slot(es, Target(es, e));
    match e {
      case Add(t, p, f, l, n) =>
        var r := NewEntry(was, t, p, f, l, n);
        PatchSlots(es, z, 0, r, z);
        NewEntryFields(was, t, p, f, l, n);
        assert Put(was, 0, r) == r;
      case Del(_) => PatchSlots(es, z, 0, Zeros(128), z);
      case Name(_, n) => PatchSlots(es, z, 56, n, z);
      case Uuid(_, u) => PatchSlots(es, z, 56, u, z);
      case Flags(_, f) => PatchSlots(es, z, 48, Word64(f), z);
      case Flag(_, f, on) => PatchSlots(es, z, 48, Masked(was[48..56], Word64(f), on), z);
      case Code(_, t) => PatchSlots(es, z, 0, t, z);
    }
  }

  /** An edit performed by the C functions on a table that update_crc accepts. */
  method Perform(dev: Device, disk: array<byte>, crc: Crc, e: Edit) returns (ok: bool)
    requires Sane(dev) && dev.size == disk.Length && DiskSized(disk.Length)
    requires Fits(View(disk[..]).ph) && Sealable(View(disk[..]).ph)
    requires Applies(View(disk[..]).pe, e)
    requires e.Add? ==>
      !AddRefused(dev, Some(Encoded(e.title, true)), e.first, e.last, Some(e.tguid))
    modifies disk
    ensures ok
    ensures e.Add? ==> AlignUp(e.first, Grain(dev)) <= MAX64
    ensures View(disk[..]) == Step(crc, old(View(disk[..])), Aligned(dev, e))
  {
    match e {
      case Add(t, p, f, l, n) =>
        var reported;
        ok, reported := AddGpt(dev, disk, crc, Some(Encoded(n, true)), f, l, Some(t), Some(p));
      case Del(_) => ok := PerformDel(disk, crc, e);
      case Name(_, _) => ok := PerformName(disk, crc, e);
      case Uuid(_, _) => ok := PerformUuid(disk, crc, e);
      case Flags(_, _) => ok := PerformFlag(disk, crc, e);
      case Flag(_, _, _) => ok := PerformFlag(disk, crc, e);
      case Code(_, _) => ok := PerformCode(disk, crc, e);
    }
  }

  method PerformDel(disk: array<byte>, crc: Crc, e: Edit) returns (ok: bool)
    requires DiskSized(disk.Length) && e.Del?
    requires Fits(View(disk[..]).ph) && Sealable(View(disk[..]).ph) && Applies(View(disk[..]).pe, e)
    modifies disk
    ensures ok
    ensures View(disk[..]) == Step(crc, old(View(disk[..])), e)
  {
    hide LE, Put, View, Commit;
    EditInDisk(disk[..], e);
    ok := DelGpt(disk, crc, e.pnumber);
  }

  method PerformName(disk: array<byte>, crc: Crc, e: Edit) returns (ok: bool)
    requires DiskSized(disk.Length) && e.Name?
    requires Fits(View(disk[..]).ph) && Sealable(View(disk[..]).ph) && Applies(View(disk[..]).pe, e)
    modifies disk
    ensures ok
    ensures View(disk[..]) == Step(crc, old(View(disk[..])), e)
  {
    hide LE, Put, View, Commit;
    EditInDisk(disk[..], e);
    ok := NameGpt(disk, crc, e.pnumber, Encoded(e.title, true));
  }

  method PerformUuid(disk: array<byte>, crc: Crc, e: Edit) returns (ok: bool)
    requires DiskSized(disk.Length) && e.Uuid?
    requires Fits(View(disk[..]).ph) && Sealable(View(disk[..]).ph) && Applies(View(disk[..]).pe, e)
    modifies disk
    ensures ok
    ensures View(disk[..]) == Step(crc, old(View(disk[..])), e)
  {
    hide LE, Put, View, Commit;
    EditInDisk(disk[..], e);
    ok := UuidGpt(disk, crc, e.pnumber, e.uuid);
  }

  method PerformFlag(disk: array<byte>, crc: Crc, e: Edit) returns (ok: bool)
    requires DiskSized(disk.Length) && (e.Flags? || e.Flag?)
    requires Fits(View(disk[..]).ph) && Sealable(View(disk[..]).ph) && Applies(View(disk[..]).pe, e)
    modifies disk
    ensures ok
    ensures View(disk[..]) == Step(crc, old(View(disk[..])), e)
  {
    hide LE, Put, View, Commit;
    EditInDisk(disk[..], e);
    if e.Flags? {
      ok := FlagsGpt(disk, crc, e.pnumber, e.flags);
    } else {
      ok := FlagGpt(disk, crc, e.pnumber, e.flag, e.status);
    }
  }

  method PerformCode(disk: array<byte>, crc: Crc, e: Edit) returns (ok: bool)
    requires DiskSized(disk.Length) && e.Code?
    requires Fits(View(disk[..]).ph) && Sealable(View(disk[..]).ph) && Applies(View(disk[..]).pe, e)
    modifies disk
    ensures ok
    ensures View(disk[..]) == Step(crc, old(View(disk[..])), e)
  {
    hide LE, Put, View, Commit;
    EditInDisk(disk[..], e);
    EntryBounds(disk[..], e.pnumber);
    ok := CodeGpt(disk, crc, e.pnumber, Some(e.tguid));
  }

  /** The store of an indexed edit, as the C code addresses it, edits the slot of that number. */
  lemma EditInDisk(d: bytes, e: Edit)
    requires DiskSized(|d|) && !e.Add? && Applies(View(d).pe, e)
    ensures var at := 1024 + 128 * Target(View(d).pe, e); var w := View(d).(pe := Edited(View(d).pe, e));
      match e
      case Del(_) => View(Put(d, at, Zeros(128))) == w
      case Name(_, n) => View(Put(d, at + 56, n)) == w
      case Uuid(_, u) => View(Put(d, at + 56, u)) == w
      case Flags(_, f) => View(Put(d, at + 48, Word64(f))) == w
      case Flag(_, f, on) => View(Put(d, at + 48, Masked(d[at + 48..at + 56], Word64(f), on))) == w
      case Code(_, t) => View(Put(d, at, t)) == w
  {
    hide LE, Put;
    var z := Target(View(d).pe, e);
    match e {
      case Del(_) => ViewOfPatch(d, z, 0, Zeros(128));
      case Name(_, n) => ViewOfPatch(d, z, 56, n);
      case Uuid(_, u) => ViewOfPatch(d, z, 56, u);
      case Flags(_, f) => ViewOfPatch(d, z, 48, Word64(f));
      case Flag(_, f, on) =>
        FlagsInDisk(d, z);
        ViewOfPatch(d, z, 48, Masked(Slot(View(d).pe, z)[48..56], Word64(f), on));
      case Code(_, t) => ViewOfPatch(d, z, 0, t);
    }
  }

  lemma FlagsInDisk(d: bytes, z: nat)
    requires DiskSized(|d|) && z < SLOTS
    ensures d[1024 + 128 * z + 48..1024 + 128 * z + 56] == Slot(View(d).pe, z)[48..56]
  {
    SliceOfSlice(d, 1024, ARRAY_BYTES, 128 * z + 48, 128 * z + 56);
    SliceOfSlice(View(d).pe, 128 * z, 128, 48, 56);
  }

  lemma EntryBounds(d: bytes, z: nat)
    requires DiskSized(|d|) && z < SLOTS
    ensures var at := 1024 + 128 * z;
      && LE(d[at + 32..at + 40]) == FirstLba(Slot(View(d).pe, z))
      && LE(d[at + 40..at + 48]) == LastLba(Slot(View(d).pe, z))
  {
    var at := 1024 + 128 * z;
    SlotInDisk(d, z);
    SliceOfSlice(d, at, 128, 32, 40);
    SliceOfSlice(d, at, 128, 40, 48);
  }

  predicate LegalRun(crc: Crc, v: Image, es: seq<Edit>)
    requires Fits(v.ph) && Sealable(v.ph)
    decreases |es|
  {
    es == [] ||
    (&& Applies(v.pe, es[0])
     && (CommitIsGood(crc, v.(pe := Edited(v.pe, es[0]))); LegalRun(crc, Step(crc, v, es[0]), es[1..])))
  }

  function After(crc: Crc, v: Image, es: seq<Edit>): Image
    requires Fits(v.ph) && Sealable(v.ph) && LegalRun(crc, v, es)
    decreases |es|
  {
    if es == [] then v
    else
      CommitIsGood(crc, v.(pe := Edited(v.pe, es[0])));
      After(crc, Step(crc, v, es[0]), es[1..])
  }

  /** The slots a run stores into. */
  function Touched(crc: Crc, v: Image, es: seq<Edit>): set<int>
    requires Fits(v.ph) && Sealable(v.ph) && LegalRun(crc, v, es)
    decreases |es|
  {
    if es == [] then {}
    else
      CommitIsGood(crc, v.(pe := Edited(v.pe, es[0])));
      {Target(v.pe, es[0])} + Touched(crc, Step(crc, v, es[0]), es[1..])
  }

  /**
   Every run of successful edits ends with both copies checking, equal and mirrored; it changes
   no byte outside the two tables, no header byte but checksums, and no slot it does not address.
   */
  lemma {:induction false} RunsKeepTable(crc: Crc, v: Image, es: seq<Edit>)
    requires Fits(v.ph) && Sealable(v.ph) && LegalRun(crc, v, es)
    requires es != [] || GoodTable(crc, v)
    ensures var w := After(crc, v, es);
      && GoodTable(crc, w)
      && w.mbr == v.mbr && w.data == v.data
      && SameButCrcs(v.ph, w.ph)
      && forall k :: 0 <= k < SLOTS && k !in Touched(crc, v, es) ==> Slot(w.pe, k) == Slot(v.pe, k)
    decreases |es|
  {
    if es != [] {
      CommitIsGood(crc, v.(pe := Edited(v.pe, es[0])));
      var v' := Step(crc, v, es[0]);
      RunsKeepTable(crc, v', es[1..]);
      forall k | 0 <= k < SLOTS && k !in Touched(crc, v, es)
        ensures Slot(After(crc, v, es).pe, k) == Slot(v.pe, k)
      {
        EditedSlots(v.pe, es[0], k);
      }
    }
  }

  // ---- Add, and delete as its inverse ----

  /** An add takes the lowest free slot, leaves it in use with the requested range, and changes no other. */
  lemma AddTakesLowest(crc: Crc, v: Image, e: Edit)
    requires Fits(v.ph) && Sealable(v.ph) && e.Add? && Applies(v.pe, e)
    ensures var z := Target(v.pe, e); var w := Step(crc, v, e);
      && !InUse(Slot(v.pe, z)) && AllZero(Slot(v.pe, z)[..32])
      && (forall k :: 0 <= k < z ==> InUse(Slot(v.pe, k)) && !AllZero(Slot(v.pe, k)[..32]))
      && InUse(Slot(w.pe, z)) && FirstLba(Slot(w.pe, z)) == e.first && LastLba(Slot(w.pe, z)) == e.last
      && (forall k :: 0 <= k < SLOTS && k != z ==> Slot(w.pe, k) == Slot(v.pe, k))
      && LowestFree(w.pe, 0, SLOTS) > z
  {
    hide LE, Put, InUse, AllZero, Commit;
    var z := Target(v.pe, e);
    var r := NewEntry(Slot(v.pe, z), e.tguid, e.pguid, e.first, e.last, e.title);
    var w := Step(crc, v, e);
    CommitIsGood(crc, v.(pe := Edited(v.pe, e)));
    NewEntryFields(Slot(v.pe, z), e.tguid, e.pguid, e.first, e.last, e.title);
    PatchSlots(v.pe, z, 0, r, z);
    PutWhole(Slot(v.pe, z), r);
    forall k | 0 <= k < SLOTS {
      FreeIsZeros(Slot(v.pe, k));
    }
    forall k | 0 <= k < SLOTS && k != z
      ensures Slot(w.pe, k) == Slot(v.pe, k)
    {
      EditedSlots(v.pe, e, k);
    }
  }

  /** Zeroing the slot an add filled restores an array whose slot had held zeros. */
  lemma ClearedAfterAdd(es: Entries, e: Edit)
    requires e.Add? && Applies(es, e)
    ensures var z := Target(es, e); var cleared := Patch(Edited(es, e), z, 0, Zeros(128));
      && Slot(cleared, z) == Zeros(128)
      && (AllZero(Slot(es, z)) ==> cleared == es)
  {
    hide Put, LE, InUse, NewEntry, LowestFree;
    var z, added := Target(es, e), Edited(es, e);
    var cleared := Patch(added, z, 0, Zeros(128));
    PatchSlots(added, z, 0, Zeros(128), z);
    PutWhole(Slot(added, z), Zeros(128));
    AllZeroIsZeros(Slot(es, z));
    if AllZero(Slot(es, z)) {
      forall k | 0 <= k < SLOTS
        ensures Slot(cleared, k) == Slot(es, k)
      {
        PatchSlots(added, z, 0, Zeros(128), k);
        if k != z {
          EditedSlots(es, e, k);
        }
      }
      SlotsDetermineArray(cleared, es);
    }
  }

  lemma PutWhole(e: bytes, s: bytes)
    requires |s| == |e|
    ensures Put(e, 0, s) == s
  {
  }

  /** Deleting what was just added gives the old disk back, to the byte, exactly when the slot held only zeros. */
  lemma DeleteUndoesAdd(crc: Crc, v: Image, e: Edit)
    requires GoodTable(crc, v) && e.Add? && Applies(v.pe, e)
    ensures var w := Step(crc, v, e); var d := Del(Target(v.pe, e) + 1);
      && Fits(w.ph) && Applies(w.pe, d)
      && (Step(crc, w, d) == v <==> AllZero(Slot(v.pe, Target(v.pe, e))))
  {
    hide LE, Put, GoodTable, Commit, Slot, AllZero, InUse, LowestFree, NewEntry;
    var z, added := Target(v.pe, e), Edited(v.pe, e);
    DataDoesNotMatter(crc, v, v.data);
    ClearedAfterAdd(v.pe, e);
    var cleared := Patch(added, z, 0, Zeros(128));
    CommitIsGood(crc, v.(pe := added));
    CommitForgets(crc, v, added, cleared);
    CommitIsGood(crc, v.(pe := cleared));
    GoodIffFixed(crc, v);
    ZerosAreZero();
  }

  lemma ZerosAreZero()
    ensures AllZero(Zeros(128))
  {
  }

  /** After a wipe and a creation the first add takes slot 0. */
  lemma FirstAddTakesSlotZero(crc: Crc, d: bytes, w: bytes, guid: bytes, e: Edit)
    requires DiskSized(|d|) && |d| < TWO64 && |guid| == GUID && e.Add? && GptCreate.Zapped(d, w)
    ensures Target(View(GptCreate.Created(crc, Put(w, GptCreate.MBR_OFFSET, GptCreate.PROTECTIVE), guid)).pe, e) == 0
  {
    hide GptCreate.Created, Put;
    GptCreate.WipeThenCreate(crc, d, w, guid);
    var es := View(GptCreate.Created(crc, Put(w, GptCreate.MBR_OFFSET, GptCreate.PROTECTIVE), guid)).pe;
    assert AllZero(es);
    assert !InUse(Slot(es, 0));
  }

  // ---- Where the edits miss ----

  /** Name, uuid, flag and code edits of partition p leave p's own entry, slot p - 1, as it was. */
  lemma EditsMissOwnSlot(crc: Crc, v: Image, e: Edit)
    requires Fits(v.ph) && Sealable(v.ph) && !e.Add? && !e.Del?
    requires Applies(v.pe, e) && e.pnumber >= 1
    ensures Slot(Step(crc, v, e).pe, e.pnumber - 1) == Slot(v.pe, e.pnumber - 1)
    ensures forall k :: 0 <= k < SLOTS && k != e.pnumber ==> Slot(Step(crc, v, e).pe, k) == Slot(v.pe, k)
  {
    hide Slot, Commit;
    CommitIsGood(crc, v.(pe := Edited(v.pe, e)));
    forall k | 0 <= k < SLOTS && k != e.pnumber
      ensures Slot(Step(crc, v, e).pe, k) == Slot(v.pe, k)
    {
      EditedSlots(v.pe, e, k);
    }
  }

  /**
   For partition number 128 and up to the end of the mapping the indexed entry lies past the array, in
   the usable range: both tables stay as they are, and the data does only if it already held the stored
   bytes. On a disk too small for that the entry lies in the backup array, and the commit overwrites it.
   */
  lemma NumbersPastArrayEditData(crc: Crc, d: bytes, z: nat, off: nat, s: bytes)
    requires DiskSized(|d|) && GoodTable(crc, View(d))
    requires SLOTS <= z < MAPPED && off + |s| <= ENTRY
    ensures 1024 + 128 * z + off + |s| <= |d|
    ensures var v, w := View(d), View(Put(d, 1024 + 128 * z + off, s)); var k := 128 * (z - 128) + off;
      && Fits(w.ph)
      && if 128 * (z - 128) < |v.data| then
           && k + |s| <= |v.data|
           && Commit(crc, w) == v.(data := Put(v.data, k, s))
           && (Commit(crc, w).data == v.data <==> v.data[k..k + |s|] == s)
         else Commit(crc, w) == v
  {
    hide LE, Put, Commit, GoodTable;
    var at, v, k := 1024 + 128 * z + off, View(d), 128 * (z - 128) + off;
    if 128 * (z - 128) < |v.data| {
      EntryInData(d, k, s);
      var w := View(Put(d, at, s));
      DataDoesNotMatter(crc, v, Put(v.data, k, s));
      GoodIffFixed(crc, w);
      PutSame(v.data, k, s);
      PutSelf(v.data, k, |s|);
    } else {
      EntryInBackup(d, at, s);
      DataDoesNotMatter(crc, v, v.data);
      GoodIffFixed(crc, v);
      BackupIsRewritten(crc, v, View(Put(d, at, s)).be);
    }
  }

  lemma EntryInData(d: bytes, k: nat, s: bytes)
    requires DiskSized(|d|) && k + |s| <= |View(d).data|
    ensures View(Put(d, 17408 + k, s)) == View(d).(data := Put(View(d).data, k, s))
  {
    hide Put;
    var at, n := 17408 + k, |d|;
    PutOutside(d, at, s, 0, 512);
    PutOutside(d, at, s, 512, 1024);
    PutOutside(d, at, s, 1024, 17408);
    PutInside(d, at, s, 17408, n - 16896);
    PutOutside(d, at, s, n - 16896, n - 512);
    PutOutside(d, at, s, n - 512, n);
  }

  lemma EntryInBackup(d: bytes, at: nat, s: bytes)
    requires DiskSized(|d|) && |d| - 16896 <= at && at + |s| <= |d| - 512
    ensures var w := View(Put(d, at, s)); w == View(d).(be := w.be)
  {
    hide Put;
    var n := |d|;
    PutOutside(d, at, s, 0, 512);
    PutOutside(d, at, s, 512, 1024);
    PutOutside(d, at, s, 1024, 17408);
    PutOutside(d, at, s, 17408, n - 16896);
    PutOutside(d, at, s, n - 512, n);
  }

  lemma BackupIsRewritten(crc: Crc, v: Image, be: Entries)
    requires Fits(v.ph)
    ensures Sealable(v.ph) ==> Commit(crc, v.(be := be)) == Commit(crc, v)
  {
  }

  lemma DataDoesNotMatter(crc: Crc, v: Image, data: bytes)
    requires GoodTable(crc, v)
    ensures Fits(v.ph) && Sealable(v.ph) && GoodTable(crc, v.(data := data))
  {
  }

  /** An uncommitted change of the primary array leaves a good table only if it changes nothing. */
  lemma GoodFixesArray(crc: Crc, v: Image, es: Entries)
    requires GoodTable(crc, v)
    ensures GoodTable(crc, v.(pe := es)) <==> es == v.pe
  {
    hide Checks, MirrorHeader, Fits, Sealable, LE;
  }

  /** A rename whose conversion fails keeps the table good only if it wrote nothing new. */
  lemma FailedNameUnseals(crc: Crc, v: Image, z: nat, out: bytes)
    requires GoodTable(crc, v) && z < SLOTS && |out| <= 72
    ensures GoodTable(crc, v.(pe := Patch(v.pe, z, 56, out))) <==> Slot(v.pe, z)[56..56 + |out|] == out
  {
    hide GoodTable, Put;
    GoodFixesArray(crc, v, Patch(v.pe, z, 56, out));
    SliceOfSlice(v.pe, 128 * z, 128, 56, 56 + |out|);
    PutSame(v.pe, 128 * z + 56, out);
    PutSelf(v.pe, 128 * z + 56, |out|);
  }

  /** An add that fails after choosing its slot keeps the table good only if that slot held only zeros. */
  lemma FailedAddUnseals(crc: Crc, v: Image, z: nat)
    requires GoodTable(crc, v) && z < SLOTS
    ensures GoodTable(crc, v.(pe := Patch(v.pe, z, 0, Zeros(128)))) <==> AllZero(Slot(v.pe, z))
  {
    hide GoodTable, Put, AllZero;
    GoodFixesArray(crc, v, Patch(v.pe, z, 0, Zeros(128)));
    AllZeroIsZeros(Slot(v.pe, z));
    PutSame(v.pe, 128 * z, Zeros(128));
    PutSelf(v.pe, 128 * z, 128);
  }

  // ---- Flag bits ----

  /** A flag edit right after another of the same bits and number leaves the disk that it alone would have left. */
  lemma FlagEditsOverride(crc: Crc, v: Image, p: nat, flag: word64, first: bool, second: bool)
    requires Fits(v.ph) && Sealable(v.ph) && p < SLOTS
    ensures var w := Step(crc, v, Flag(p, flag, first));
      && Fits(w.ph) && Applies(w.pe, Flag(p, flag, second))
      && Step(crc, w, Flag(p, flag, second)) == Step(crc, v, Flag(p, flag, second))
  {
    hide LE, Put, Commit, Masked;
    var e, f := Flag(p, flag, first), Flag(p, flag, second);
    var es := Edited(v.pe, e);
    CommitIsGood(crc, v.(pe := es));
    FlagEntriesOverride(v.pe, p, flag, first, second);
    CommitForgets(crc, v, es, Edited(v.pe, f));
  }

  lemma FlagEntriesOverride(es: Entries, p: nat, flag: word64, first: bool, second: bool)
    requires p < SLOTS
    ensures Edited(Edited(es, Flag(p, flag, first)), Flag(p, flag, second)) == Edited(es, Flag(p, flag, second))
  {
    hide LE, Put, Masked;
    var m, was := Word64(flag), Slot(es, p)[48..56];
    var now := Masked(was, m, first);
    PatchSlots(es, p, 48, now, p);
    PutSame(Slot(es, p), 48, now);
    MasksOverride(was, m, first, second);
    PutPut(es, 128 * p + 48, now, Masked(was, m, second));
  }

  lemma MasksOverride(flags: bytes, mask: bytes, first: bool, second: bool)
    requires |flags| == |mask|
    ensures Masked(Masked(flags, mask, first), mask, second) == Masked(flags, mask, second)
  {
    forall i | 0 <= i < |flags|
      ensures Masked(Masked(flags, mask, first), mask, second)[i] == Masked(flags, mask, second)[i]
    {
      ByteOverride(flags[i], mask[i], first, second);
    }
  }

  lemma ByteOverride(x: byte, m: byte, first: bool, second: bool)
    ensures MaskByte(MaskByte(x, m, first), m, second) == MaskByte(x, m, second)
  {
    var c := MaskByte(x, m, first);
    MaskByteIsBits(x, m, first);
    assert MaskBits(c as bv8, m as bv8, second) == MaskBits(x as bv8, m as bv8, second) by {
      BitsOverride(x as bv8, m as bv8, first, second);
    }
    calc {
      MaskByte(c, m, second);
      { MaskByteIsBits(c, m, second); }
      MaskBits(c as bv8, m as bv8, second) as byte;
      MaskBits(x as bv8, m as bv8, second) as byte;
      { MaskByteIsBits(x, m, second); }
      MaskByte(x, m, second);
    }
  }

  lemma BitsOverride(x: bv8, m: bv8, first: bool, second: bool)
    ensures MaskBits(MaskBits(x, m, first), m, second) == MaskBits(x, m, second)
  {
  }
}
