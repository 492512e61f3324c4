/** The GPT edits of src/gpt.c: add, delete, and the name, uuid, flag and code edits. */
module GptEdit {
  import opened Bytes
  import opened Devices
  import opened GptLayout
  import opened Gpt
  import opened Wrappers

  // ---- Entries ----

  function Slot(es: Entries, z: nat): (e: bytes)
    requires z < SLOTS
    ensures |e| == ENTRY
  {
    es[128 * z..128 * z + 128]
  }

  /** The array with bytes s stored at offset off of slot z. */
  function Patch(es: Entries, z: nat, off: nat, s: bytes): Entries
    requires z < SLOTS && off + |s| <= ENTRY
  {
    Put(es, 128 * z + off, s)
  }

  lemma PatchSlots(es: Entries, z: nat, off: nat, s: bytes, k: nat)
    requires z < SLOTS && off + |s| <= ENTRY && k < SLOTS
    ensures Slot(Patch(es, z, off, s), k) == if k == z then Put(Slot(es, z), off, s) else Slot(es, k)
  {
    hide Put;
    if k == z {
      PutInside(es, 128 * z + off, s, 128 * z, 128 * z + 128);
    } else {
      PutOutside(es, 128 * z + off, s, 128 * k, 128 * k + 128);
    }
  }

  lemma SlotsDetermineArray(es: Entries, fs: Entries)
    requires forall k :: 0 <= k < SLOTS ==> Slot(es, k) == Slot(fs, k)
    ensures es == fs
  {
    forall i | 0 <= i < ARRAY_BYTES
      ensures es[i] == fs[i]
    {
      var k := i / 128;
      assert es[i] == Slot(es, k)[i - 128 * k];
      assert fs[i] == Slot(fs, k)[i - 128 * k];
    }
  }

  function FirstLba(e: bytes): nat
    requires |e| == ENTRY
  {
    LE(e[32..40])
  }

  function LastLba(e: bytes): nat
    requires |e| == ENTRY
  {
    LE(e[40..48])
  }

  /** A slot is in use when either of its GUIDs has a non-zero byte. */
  predicate InUse(e: bytes)
    requires |e| == ENTRY
  {
    !AllZero(e[..16]) || !AllZero(e[16..32])
  }

  lemma FreeIsZeros(e: bytes)
    requires |e| == ENTRY
    ensures InUse(e) <==> !AllZero(e[..32])
  {
    assert e[..32] == e[..16] + e[16..32];
  }

  /** The lowest free slot at or after z among the first n, or n. */
  function LowestFree(es: Entries, z: nat, n: nat): (r: nat)
    requires z <= n <= SLOTS
    ensures z <= r <= n
    ensures r < n ==> !InUse(Slot(es, r))
    ensures forall k :: z <= k < r ==> InUse(Slot(es, k))
    decreases n - z
  {
    if z == n || !InUse(Slot(es, z)) then z else LowestFree(es, z + 1, n)
  }

  /** The condition under which add_gpt prints its overlap diagnostic. */
  predicate EndInside(e: bytes, f: nat, l: nat)
    requires |e| == ENTRY
  {
    f <= FirstLba(e) <= l || f <= LastLba(e) <= l
  }

  predicate Overlaps(e: bytes, f: nat, l: nat)
    requires |e| == ENTRY
  {
    FirstLba(e) <= l && f <= LastLba(e)
  }

  /** The diagnostic sees every overlap except an old partition that sticks out on both sides. */
  lemma OverlapDiagnostic(e: bytes, f: nat, l: nat)
    requires |e| == ENTRY && f <= l && FirstLba(e) <= LastLba(e)
    ensures EndInside(e, f, l) <==> Overlaps(e, f, l) && !(FirstLba(e) < f && l < LastLba(e))
  {
  }

  // ---- add_gpt ----

  /** What iconv leaves in the 72-byte name field, and whether it converted the whole name. */
  datatype Encoded = Encoded(out: bytes, complete: bool)

  predicate NameFits(c: Encoded) {
    |c.out| <= 72
  }

  predicate IsGuid(g: bytes) {
    |g| == GUID
  }

  /** The slot's bytes once add_gpt has filled every field; name bytes past the converted ones stay. */
  function NewEntry(e: bytes, tguid: bytes, pguid: bytes, f: word64, l: word64, name: bytes): (r: bytes)
    requires |e| == ENTRY && IsGuid(tguid) && IsGuid(pguid) && |name| <= 72
    ensures |r| == ENTRY
  {
    tguid + pguid + Word64(f) + Word64(l) + Zeros(8) + name + e[56 + |name|..]
  }

  lemma NewEntryFields(e: bytes, tguid: bytes, pguid: bytes, f: word64, l: word64, name: bytes)
    requires |e| == ENTRY && IsGuid(tguid) && IsGuid(pguid) && |name| <= 72
    requires !AllZero(tguid)
    ensures var r := NewEntry(e, tguid, pguid, f, l, name);
      && InUse(r) && r[..16] == tguid && r[16..32] == pguid
      && FirstLba(r) == LE(r[32..40]) == f && LastLba(r) == LE(r[40..48]) == l
      && r[48..56] == Zeros(8) && r[56..56 + |name|] == name && r[56 + |name|..] == e[56 + |name|..]
  {
    var r := NewEntry(e, tguid, pguid, f, l, name);
    assert r[..16] == tguid;
    assert r[16..32] == pguid;
    assert r[32..40] == Word64(f);
    assert r[40..48] == Word64(l);
    assert r[48..56] == Zeros(8);
    assert r[56..56 + |name|] == name;
  }

  predicate AddRefused(dev: Device, name: Option<Encoded>, f: nat, l: nat, code: Option<bytes>)
    requires Sane(dev)
  {
    || name.None?
    || dev.layout != LayoutNone
    || dev.pttable != Some("gpt")
    || dev.size % LBA != 0
    || BadRange(dev, AlignUp(f, Grain(dev)), l)
    || code.None?
  }

  /** The stores of one add into slot z, field by field. */
  method FillSlot(disk: array<byte>, z: nat, tguid: bytes, name: Encoded, random: Option<bytes>, f: word64, l: word64)
    returns (ok: bool)
    requires DiskSized(disk.Length) && z < SLOTS
    requires IsGuid(tguid) && NameFits(name) && (random.Some? ==> IsGuid(random.value))
    modifies disk
    ensures ok == (name.complete && random.Some?)
    ensures var d := old(disk[..]); var at := 1024 + 128 * z;
      disk[..] == Put(d, at, if ok then NewEntry(d[at..at + 128], tguid, random.value, f, l, name.out) else Zeros(128))
  {
    ghost var d := disk[..];
    var at := 1024 + 128 * z;
    ghost var e := d[at..at + 128];
    PutSelf(d, at, 128);
    StoreField(disk, at, 0, tguid, d, e);
    ghost var e1 := Put(e, 0, tguid);
    StoreField(disk, at, 56, name.out, d, e1);
    ghost var e2 := Put(e1, 56, name.out);
    if !name.complete || random.None? {
      Store(disk, at, Zeros(128));
      PutPut(d, at, e2, Zeros(128));
      return false;
    }
    StoreField(disk, at, 16, random.value, d, e2);
    FillRange(disk, at, f, l, d, Put(e2, 16, random.value));
    FilledEntry(e, tguid, random.value, f, l, name.out);
    ok := true;
  }

  method FillRange(disk: array<byte>, at: nat, f: word64, l: word64, ghost d: bytes, ghost e: bytes)
    requires |d| == disk.Length && at + 128 <= |d| && |e| == 128 && disk[..] == Put(d, at, e)
    modifies disk
    ensures disk[..] == Put(d, at, Put(Put(Put(e, 48, Zeros(8)), 32, Word64(f)), 40, Word64(l)))
  {
    StoreField(disk, at, 48, Zeros(8), d, e);
    ghost var e1 := Put(e, 48, Zeros(8));
    StoreField(disk, at, 32, Word64(f), d, e1);
    StoreField(disk, at, 40, Word64(l), d, Put(e1, 32, Word64(f)));
  }

  lemma FilledEntry(e: bytes, tguid: bytes, pguid: bytes, f: word64, l: word64, name: bytes)
    requires |e| == ENTRY && IsGuid(tguid) && IsGuid(pguid) && |name| <= 72
    ensures var e3 := Put(Put(Put(e, 0, tguid), 56, name), 16, pguid);
      Put(Put(Put(e3, 48, Zeros(8)), 32, Word64(f)), 40, Word64(l)) == NewEntry(e, tguid, pguid, f, l, name)
  {
    FilledBytes(e, tguid, pguid, Word64(f), Word64(l), name);
  }

  lemma FilledBytes(e: bytes, tguid: bytes, pguid: bytes, first: bytes, last: bytes, name: bytes)
    requires |e| == ENTRY && IsGuid(tguid) && IsGuid(pguid) && |name| <= 72 && |first| == |last| == 8
    ensures var e3 := Put(Put(Put(e, 0, tguid), 56, name), 16, pguid);
      Put(Put(Put(e3, 48, Zeros(8)), 32, first), 40, last)
      == tguid + pguid + first + last + Zeros(8) + name + e[56 + |name|..]
  {
    var e3 := Put(Put(Put(e, 0, tguid), 56, name), 16, pguid);
    assert e3 == tguid + pguid + e[32..56] + name + e[56 + |name|..];
    var e4 := Put(e3, 48, Zeros(8));
    assert e4 == tguid + pguid + e[32..48] + Zeros(8) + name + e[56 + |name|..];
    var e5 := Put(e4, 32, first);
    assert e5 == tguid + pguid + first + e[40..48] + Zeros(8) + name + e[56 + |name|..];
  }

  lemma ViewOfPatch(d: bytes, z: nat, off: nat, s: bytes)
    requires DiskSized(|d|) && z < SLOTS && off + |s| <= ENTRY
    ensures View(Put(d, 1024 + 128 * z + off, s)) == View(d).(pe := Patch(View(d).pe, z, off, s))
  {
    hide Put;
    var at, n := 1024 + 128 * z + off, |d|;
    PutOutside(d, at, s, 0, 512);
    PutOutside(d, at, s, 512, 1024);
    PutInside(d, at, s, 1024, 17408);
    PutOutside(d, at, s, 17408, n - 16896);
    PutOutside(d, at, s, n - 16896, n - 512);
    PutOutside(d, at, s, n - 512, n);
    assert at - 1024 == 128 * z + off;
  }

  lemma SlotInDisk(d: bytes, z: nat)
    requires DiskSized(|d|) && z < SLOTS
    ensures d[1024 + 128 * z..1024 + 128 * z + 128] == Slot(View(d).pe, z)
  {
    SliceOfSlice(d, 1024, ARRAY_BYTES, 128 * z, 128 * z + 128);
  }

  /** The scan of add_gpt: the slot to use among the first count, and whether any overlap was reported. */
  method ScanSlots(disk: array<byte>, count: nat, f: nat, l: nat) returns (partno: nat, reported: bool)
    requires DiskSized(disk.Length) && count <= SLOTS
    ensures partno == LowestFree(View(disk[..]).pe, 0, count)
    ensures reported <==> exists z :: 0 <= z < count && SlotOverlap(View(disk[..]).pe, z, f, l)
  {
    ghost var es := View(disk[..]).pe;
    partno, reported := count, false;
    var z := 0;
    while z < count
      invariant 0 <= z <= count
      invariant partno == count ==> LowestFree(es, 0, count) == LowestFree(es, z, count)
      invariant partno < count ==> partno == LowestFree(es, 0, count)
      invariant partno <= count
      invariant reported <==> exists k :: 0 <= k < z && SlotOverlap(es, k, f, l)
    {
      SlotInDisk(disk[..], z);
      var e := disk[1024 + 128 * z..1024 + 128 * z + 128];
      if InUse(e) {
        if EndInside(e, f, l) {
          reported := true;
          assert SlotOverlap(es, z, f, l);
        }
      } else if partno == count {
        partno := z;
      }
      z := z + 1;
    }
  }

  predicate SlotOverlap(es: Entries, z: nat, f: nat, l: nat) {
    z < SLOTS && InUse(Slot(es, z)) && EndInside(Slot(es, z), f, l)
  }

  predicate AnyOverlap(v: Image, f: nat, l: nat) {
    exists z :: 0 <= z < PartCount(v.ph) && SlotOverlap(v.pe, z, f, l)
  }

  /** An add inside a used slot's range is accepted and, with no other slot in use, not even reported. */
  lemma ContainedAddUnreported(dev: Device, v: Image, name: Encoded, code: bytes)
    requires dev == Device(LayoutNone, Some("gpt"), 0x10_0000, 512, 512, 34, 0x7ff)
    requires InUse(Slot(v.pe, 0)) && FirstLba(Slot(v.pe, 0)) == 100 && LastLba(Slot(v.pe, 0)) == 1000
    requires forall z :: 1 <= z < SLOTS ==> !InUse(Slot(v.pe, z))
    ensures !AddRefused(dev, Some(name), 200, 300, Some(code))
    ensures Overlaps(Slot(v.pe, 0), 200, 300) && !AnyOverlap(v, 200, 300)
  {
    hide LE, InUse;
  }

  /**
   add_gpt. Overlaps are reported and not refused. A refused request or a full table changes
   nothing; a name or GUID failure zeroes the chosen slot and commits nothing.
   */
  method AddGpt(dev: Device, disk: array<byte>, crc: Crc, name: Option<Encoded>, fsec: word64, lsec: word64,
                code: Option<bytes>, random: Option<bytes>)
    returns (ok: bool, reported: bool)
    requires Sane(dev) && dev.size == disk.Length && DiskSized(disk.Length)
    requires Fits(View(disk[..]).ph)
    requires name.Some? ==> NameFits(name.value)
    requires code.Some? ==> IsGuid(code.value)
    requires random.Some? ==> IsGuid(random.value)
    modifies disk
    ensures var v := old(View(disk[..]));
      var f := AlignUp(fsec, Grain(dev));
      var z := LowestFree(v.pe, 0, PartCount(v.ph));
      if AddRefused(dev, name, fsec, lsec, code) || z == PartCount(v.ph) then
        !ok && disk[..] == old(disk[..])
      else if !name.value.complete || random.None? then
        !ok && View(disk[..]) == v.(pe := Patch(v.pe, z, 0, Zeros(128)))
      else
        && ok == Sealable(v.ph)
        && View(disk[..]) == Commit(crc, v.(pe := Patch(v.pe, z, 0,
             NewEntry(Slot(v.pe, z), code.value, random.value, f, lsec, name.value.out))))
    ensures ok <==>
      && dev.layout == LayoutNone && dev.pttable == Some("gpt") && dev.size % 512 == 0
      && FirstUsableSector(dev) <= AlignUp(fsec, Grain(dev)) <= lsec <= LastUsableSector(dev)
      && name.Some? && name.value.complete && code.Some? && random.Some?
      && LowestFree(old(View(disk[..])).pe, 0, PartCount(old(View(disk[..])).ph)) < PartCount(old(View(disk[..])).ph)
      && Sealable(old(View(disk[..])).ph)
    ensures reported ==> !AddRefused(dev, name, fsec, lsec, code)
    ensures !AddRefused(dev, name, fsec, lsec, code) ==>
      reported == AnyOverlap(old(View(disk[..])), AlignUp(fsec, Grain(dev)), lsec)
  {
    hide LE, Commit, NewEntry, LowestFree, AnyOverlap, Patch, Slot, Fits;
    reported := false;
    if name.None? || dev.layout != LayoutNone || dev.pttable != Some("gpt") || dev.size % LBA != 0 {
      return false, false;
    }
    var f: nat := fsec;
    if f % Grain(dev) != 0 {
      f := f + (Grain(dev) - f % Grain(dev));
    }
    if BadRange(dev, f, lsec) || code.None? {
      return false, false;
    }
    ok, reported := AddChecked(disk, crc, name.value, f, lsec, code.value, random);
  }

  /** The second half of add_gpt, with the range already aligned and accepted. */
  method AddChecked(disk: array<byte>, crc: Crc, name: Encoded, f: word64, l: word64,
                    tguid: bytes, random: Option<bytes>)
    returns (ok: bool, reported: bool)
    requires DiskSized(disk.Length) && Fits(View(disk[..]).ph)
    requires NameFits(name) && IsGuid(tguid) && (random.Some? ==> IsGuid(random.value))
    modifies disk
    ensures var v := old(View(disk[..]));
      var z := LowestFree(v.pe, 0, PartCount(v.ph));
      if z == PartCount(v.ph) then
        !ok && disk[..] == old(disk[..])
      else if !name.complete || random.None? then
        !ok && View(disk[..]) == v.(pe := Patch(v.pe, z, 0, Zeros(128)))
      else
        && ok == Sealable(v.ph)
        && View(disk[..]) == Commit(crc, v.(pe := Patch(v.pe, z, 0,
             NewEntry(Slot(v.pe, z), tguid, random.value, f, l, name.out))))
    ensures reported == AnyOverlap(old(View(disk[..])), f, l)
  {
    hide LE, Put, Commit, NewEntry, LowestFree;
    ghost var d := disk[..];
    HeaderFieldsInDisk(d, 512);
    var count := LE(disk[512 + 80..512 + 84]);
    var z: nat;
    z, reported := ScanSlots(disk, count, f, l);
    if z == count {
      return false, reported;
    }
    SlotInDisk(d, z);
    ok := FillSlot(disk, z, tguid, name, random, f, l);
    ghost var e := if ok then NewEntry(Slot(View(d).pe, z), tguid, random.value, f, l, name.out) else Zeros(128);
    ViewOfPatch(d, z, 0, e);
    if ok {
      ok := UnmapGpt(disk, crc);
    }
  }

  /** The common tail of an edit that stores s at offset off of the entry it indexes. */
  method StoreAndUnmap(disk: array<byte>, crc: Crc, index: nat, off: nat, s: bytes) returns (ok: bool)
    requires DiskSized(disk.Length) && index < MAPPED && off + |s| <= ENTRY
    requires Fits(View(disk[..]).ph)
    modifies disk
    ensures ok == Sealable(old(View(disk[..])).ph)
    ensures Fits(View(Put(old(disk[..]), 1024 + 128 * index + off, s)).ph)
    ensures View(disk[..]) == Commit(crc, View(Put(old(disk[..]), 1024 + 128 * index + off, s)))
  {
    PutOutside(disk[..], 1024 + 128 * index + off, s, 512, 1024);
    Store(disk, 1024 + 128 * index + off, s);
    ok := UnmapGpt(disk, crc);
  }

  /** del_gpt zeroes the entry before the number's; all edits reach as far as the mapping does. */
  method DelGpt(disk: array<byte>, crc: Crc, pnumber: nat) returns (ok: bool)
    requires DiskSized(disk.Length) && 1 <= pnumber <= MAPPED
    requires Fits(View(disk[..]).ph)
    modifies disk
    ensures ok == Sealable(old(View(disk[..])).ph)
    ensures Fits(View(Put(old(disk[..]), 1024 + 128 * (pnumber - 1), Zeros(128))).ph)
    ensures View(disk[..]) == Commit(crc, View(Put(old(disk[..]), 1024 + 128 * (pnumber - 1), Zeros(128))))
  {
    ok := StoreAndUnmap(disk, crc, pnumber - 1, 0, Zeros(128));
  }

  /** name_gpt indexes by pnumber itself; when conversion fails, what iconv wrote stays and nothing is resealed. */
  method NameGpt(disk: array<byte>, crc: Crc, pnumber: nat, name: Encoded) returns (ok: bool)
    requires DiskSized(disk.Length) && pnumber < MAPPED && NameFits(name)
    requires Fits(View(disk[..]).ph)
    modifies disk
    ensures Fits(View(Put(old(disk[..]), 1024 + 128 * pnumber + 56, name.out)).ph)
    ensures var d' := Put(old(disk[..]), 1024 + 128 * pnumber + 56, name.out);
      if name.complete then ok == Sealable(old(View(disk[..])).ph) && View(disk[..]) == Commit(crc, View(d'))
      else !ok && disk[..] == d'
  {
    PutOutside(disk[..], 1024 + 128 * pnumber + 56, name.out, 512, 1024);
    Store(disk, 1024 + 128 * pnumber + 56, name.out);
    if !name.complete {
      return false;
    }
    ok := UnmapGpt(disk, crc);
  }

  /** uuid_gpt writes the sixteen bytes into the name field. */
  method UuidGpt(disk: array<byte>, crc: Crc, pnumber: nat, uuid: bytes) returns (ok: bool)
    requires DiskSized(disk.Length) && pnumber < MAPPED && IsGuid(uuid)
    requires Fits(View(disk[..]).ph)
    modifies disk
    ensures ok == Sealable(old(View(disk[..])).ph)
    ensures Fits(View(Put(old(disk[..]), 1024 + 128 * pnumber + 56, uuid)).ph)
    ensures View(disk[..]) == Commit(crc, View(Put(old(disk[..]), 1024 + 128 * pnumber + 56, uuid)))
  {
    ok := StoreAndUnmap(disk, crc, pnumber, 56, uuid);
  }

  method FlagsGpt(disk: array<byte>, crc: Crc, pnumber: nat, flags: word64) returns (ok: bool)
    requires DiskSized(disk.Length) && pnumber < MAPPED
    requires Fits(View(disk[..]).ph)
    modifies disk
    ensures ok == Sealable(old(View(disk[..])).ph)
    ensures Fits(View(Put(old(disk[..]), 1024 + 128 * pnumber + 48, Word64(flags))).ph)
    ensures View(disk[..]) == Commit(crc, View(Put(old(disk[..]), 1024 + 128 * pnumber + 48, Word64(flags))))
  {
    ok := StoreAndUnmap(disk, crc, pnumber, 48, Word64(flags));
  }

  /** flags |= mask or flags &= ~mask on a stored little-endian word, byte by byte. */
  function Masked(flags: bytes, mask: bytes, on: bool): (r: bytes)
    requires |flags| == |mask|
    ensures |r| == |flags|
    ensures forall i :: 0 <= i < |flags| ==> r[i] == MaskByte(flags[i], mask[i], on)
  {
    seq(|flags|, i requires 0 <= i < |flags| => MaskByte(flags[i], mask[i], on))
  }

  method FlagGpt(disk: array<byte>, crc: Crc, pnumber: nat, flag: word64, status: bool) returns (ok: bool)
    requires DiskSized(disk.Length) && pnumber < MAPPED
    requires Fits(View(disk[..]).ph)
    modifies disk
    ensures ok == Sealable(old(View(disk[..])).ph)
    ensures var at := 1024 + 128 * pnumber + 48;
      var d' := Put(old(disk[..]), at, Masked(old(disk[at..at + 8]), Word64(flag), status));
      Fits(View(d').ph) && View(disk[..]) == Commit(crc, View(d'))
  {
    var at := 1024 + 128 * pnumber + 48;
    ok := StoreAndUnmap(disk, crc, pnumber, 48, Masked(disk[at..at + 8], Word64(flag), status));
  }

  /** code_gpt: an unknown code changes nothing; an entry without sectors is resealed unchanged and refused. */
  method CodeGpt(disk: array<byte>, crc: Crc, pnumber: nat, code: Option<bytes>) returns (ok: bool)
    requires DiskSized(disk.Length) && pnumber < MAPPED && (code.Some? ==> IsGuid(code.value))
    requires Fits(View(disk[..]).ph)
    modifies disk
    ensures var d := old(disk[..]); var at := 1024 + 128 * pnumber;
      if code.None? then !ok && disk[..] == d
      else if LE(d[at + 32..at + 40]) == 0 && LE(d[at + 40..at + 48]) == 0 then
        !ok && View(disk[..]) == Commit(crc, View(d))
      else
        && ok == Sealable(View(d).ph)
        && Fits(View(Put(d, at, code.value)).ph)
        && View(disk[..]) == Commit(crc, View(Put(d, at, code.value)))
  {
    if code.None? {
      return false;
    }
    var at := 1024 + 128 * pnumber;
    if LE(disk[at + 32..at + 40]) == 0 && LE(disk[at + 40..at + 48]) == 0 {
      var committed := UnmapGpt(disk, crc);
      return false;
    }
    ok := StoreAndUnmap(disk, crc, pnumber, 0, code.value);
  }
}
