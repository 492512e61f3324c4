/** The BIOS/MBR partition table of src/msdos.c: four 16-byte entries in the first sector. */
module Msdos {
  import opened Arithmetic
  import opened Bytes
  import opened Devices
  import opened Wrappers

  const BOOT_CODE: nat := 440
  const TABLE: nat := 446
  const ENTRIES: nat := 4
  const TWO_TB: nat := 2_000_000_000_000

  function Entry(d: bytes, z: nat): (e: bytes)
    requires |d| >= LBA && z < ENTRIES
    ensures |e| == 16
  {
    d[TABLE + 16 * z..TABLE + 16 * z + 16]
  }

  function LbaFirst(e: bytes): nat
    requires |e| == 16
  {
    LE(e[8..12])
  }

  function LbaSect(e: bytes): nat
    requires |e| == 16
  {
    LE(e[12..16])
  }

  /** The lowest all-zero entry at or after z, or the table's size. */
  function FreeEntry(d: bytes, z: nat): (r: nat)
    requires |d| >= LBA && z <= ENTRIES
    ensures z <= r <= ENTRIES
    ensures r < ENTRIES ==> AllZero(Entry(d, r))
    ensures forall k :: z <= k < r ==> !AllZero(Entry(d, k))
    decreases ENTRIES - z
  {
    if z == ENTRIES || AllZero(Entry(d, z)) then z else FreeEntry(d, z + 1)
  }

  /** The last sector of an entry, on the 32-bit arithmetic of its fields. */
  function LbaLast(e: bytes): nat
    requires |e| == 16
  {
    (LbaFirst(e) + LbaSect(e) - 1) % 0x1_0000_0000
  }

  /** The condition under which add_msdos prints its overlap diagnostic for entry z. */
  predicate EndInside(d: bytes, z: nat, f: nat, l: nat)
    requires |d| >= LBA
  {
    && z < ENTRIES && !AllZero(Entry(d, z))
    && (f <= LbaFirst(Entry(d, z)) <= l || f <= LbaLast(Entry(d, z)) <= l)
  }

  predicate AnyOverlap(d: bytes, n: nat, f: nat, l: nat)
    requires |d| >= LBA
  {
    exists z :: 0 <= z < n && EndInside(d, z, f, l)
  }

  /** A new entry: only type, start and count are set, each cut to its field's width. */
  function NewEntry(code: byte, f: nat, l: nat): (e: bytes)
    requires f <= l
    ensures |e| == 16
  {
    Zeros(4) + [code] + Zeros(3) + ToLE(f, 4) + ToLE(l - f + 1, 4)
  }

  datatype Request =
    | Add(named: bool, fsec: word64, lsec: word64, mbrcode: Option<byte>)
    | Del(pnumber: nat)
    | Flags(pnumber: nat, primary: bool, flags: word64)
    | Flag(pnumber: nat, primary: bool, flag: word64, status: bool)
    | Code(pnumber: nat, mbrcode: Option<byte>)

  /** The size guard on 64-bit unsigned integers, taken before the start is aligned. */
  predicate TooBig(dev: Device, fsec: word64, lsec: word64) {
    (((lsec - fsec) % TWO64) * dev.logsec) % TWO64 > TWO_TB
  }

  /** The tests of add_msdos before it maps the table. */
  predicate AddRefused(dev: Device, named: bool, fsec: word64, lsec: word64, mbrcode: Option<byte>)
    requires Sane(dev)
  {
    || named || TooBig(dev, fsec, lsec) || mbrcode.None?
    || dev.layout != LayoutNone || dev.pttable != Some("dos") || dev.size % LBA != 0
    || BadRange(dev, AlignUp(fsec, Grain(dev)), lsec)
  }

  /** The entry a request stores into; ENTRIES when an add finds none. */
  function Target(d: bytes, r: Request): int
    requires |d| >= LBA
  {
    match r
    case Add(_, _, _, _) => FreeEntry(d, 0)
    case Del(p) => p - 1
    case Flags(p, _, _) => p - 1
    case Flag(p, _, _, _) => p - 1
    case Code(p, _) => p - 1
  }

  /** Everything the five functions test before they store. */
  predicate Accepts(dev: Device, d: bytes, r: Request)
    requires Sane(dev) && |d| >= LBA
  {
    && 0 <= Target(d, r) < ENTRIES
    && match r
       case Add(named, f, l, code) => !AddRefused(dev, named, f, l, code)
       case Del(_) => true
       case Flags(_, primary, flags) => (flags == 0x80 || flags == 0) && primary
       case Flag(_, primary, flag, _) => flag == 0x80 && primary
       case Code(p, code) =>
         && code.Some?
         && LbaFirst(Entry(d, p - 1)) != 0 && LbaSect(Entry(d, p - 1)) != 0
  }

  /** What an accepted request stores, and where: always within its target entry. */
  function Stored(dev: Device, d: bytes, r: Request): (w: (nat, bytes))
    requires Sane(dev) && |d| >= LBA && Accepts(dev, d, r)
    ensures 0 <= Target(d, r) < ENTRIES
    ensures TABLE + 16 * Target(d, r) <= w.0 && w.0 + |w.1| <= TABLE + 16 * Target(d, r) + 16
  {
    var at := TABLE + 16 * Target(d, r);
    match r
    case Add(_, f, l, code) => (at, NewEntry(code.value, AlignUp(f, Grain(dev)), l))
    case Del(_) => (at, Zeros(16))
    case Flags(_, _, flags) => (at, [flags as byte])
    case Flag(_, _, flag, on) => (at, [MaskByte(d[at], flag as byte, on)])
    case Code(_, code) => (at + 4, [code.value])
  }

  /** The first sector after a request; a refused one changes nothing. */
  function Step(dev: Device, d: bytes, r: Request): (d': bytes)
    requires Sane(dev) && |d| >= LBA
    ensures |d'| == |d|
  {
    if Accepts(dev, d, r) then Put(d, Stored(dev, d, r).0, Stored(dev, d, r).1) else d
  }

  // ---- The functions themselves ----

  /** add_msdos; reported says whether it printed an overlap, which it does without refusing. */
  method AddMsdos(dev: Device, disk: array<byte>, named: bool, fsec: word64, lsec: word64, mbrcode: Option<byte>)
    returns (ok: bool, reported: bool)
    requires Sane(dev) && disk.Length >= LBA
    modifies disk
    ensures ok <==> Accepts(dev, old(disk[..]), Add(named, fsec, lsec, mbrcode))
    ensures disk[..] == Step(dev, old(disk[..]), Add(named, fsec, lsec, mbrcode))
    ensures reported <==>
      && !AddRefused(dev, named, fsec, lsec, mbrcode)
      && AnyOverlap(old(disk[..]), ENTRIES, AlignUp(fsec, Grain(dev)), lsec)
  {
    hide LE, ToLE, AnyOverlap, NewEntry;
    if named {
      return false, false;
    }
    if (((lsec - fsec) % TWO64) * dev.logsec) % TWO64 > TWO_TB {
      return false, false;
    }
    if mbrcode.None? || dev.layout != LayoutNone || dev.pttable != Some("dos") || dev.size % LBA != 0 {
      return false, false;
    }
    var f: nat := fsec;
    if f % Grain(dev) != 0 {
      f := f + (Grain(dev) - f % Grain(dev));
    }
    if BadRange(dev, f, lsec) {
      return false, false;
    }
    var partno;
    partno, reported := ScanEntries(disk, f, lsec);
    if partno == ENTRIES {
      return false, reported;
    }
    FillEntry(disk, TABLE + 16 * partno, mbrcode.value, f, lsec);
    ok := true;
  }

  /** The scan of add_msdos: the entry to use, and whether any overlap was reported. */
  method ScanEntries(disk: array<byte>, f: nat, l: nat) returns (partno: nat, reported: bool)
    requires disk.Length >= LBA
    ensures partno == FreeEntry(disk[..], 0)
    ensures reported <==> AnyOverlap(disk[..], ENTRIES, f, l)
  {
    hide LE, EndInside;
    ghost var d := disk[..];
    partno, reported := ENTRIES, false;
    var z := 0;
    while z < ENTRIES
      invariant 0 <= z <= ENTRIES
      invariant partno <= ENTRIES
      invariant partno == ENTRIES ==> FreeEntry(disk[..], 0) == FreeEntry(disk[..], z)
      invariant partno < ENTRIES ==> partno == FreeEntry(disk[..], 0)
      invariant reported <==> AnyOverlap(d, z, f, l)
    {
      var e := disk[TABLE + 16 * z..TABLE + 16 * z + 16];
      assert e == Entry(disk[..], z);
      EndInsideIs(d, z, f, l);
      if !AllZero(e) {
        var first, sect := LE(e[8..12]), LE(e[12..16]);
        var last := (first + sect - 1) % 0x1_0000_0000;
        if (first >= f && first <= l) || (last <= l && last >= f) {
          reported := true;
        }
      } else if partno == ENTRIES {
        partno := z;
      }
      z := z + 1;
    }
  }

  lemma EndInsideIs(d: bytes, z: nat, f: nat, l: nat)
    requires |d| >= LBA && z < ENTRIES
    ensures var e := Entry(d, z);
      var first, last := LE(e[8..12]), (LE(e[8..12]) + LE(e[12..16]) - 1) % 0x1_0000_0000;
      EndInside(d, z, f, l) <==> !AllZero(e) && ((first >= f && first <= l) || (last <= l && last >= f))
  {
  }

  /** memset and the three field stores of add_msdos. */
  method FillEntry(disk: array<byte>, at: nat, mbrcode: byte, f: nat, l: nat)
    requires at + 16 <= disk.Length && f <= l
    modifies disk
    ensures disk[..] == Put(old(disk[..]), at, NewEntry(mbrcode, f, l))
  {
    hide LE, ToLE;
    ghost var d := disk[..];
    var e0 := Zeros(16);
    Store(disk, at, e0);
    StoreField(disk, at, 4, [mbrcode], d, e0);
    ghost var e1 := Put(e0, 4, [mbrcode]);
    StoreField(disk, at, 8, ToLE(f, 4), d, e1);
    ghost var e2 := Put(e1, 8, ToLE(f, 4));
    StoreField(disk, at, 12, ToLE(l - f + 1, 4), d, e2);
    assert Put(e2, 12, ToLE(l - f + 1, 4)) == NewEntry(mbrcode, f, l);
  }

  method DelMsdos(dev: Device, disk: array<byte>, pnumber: nat) returns (ok: bool)
    requires Sane(dev) && disk.Length >= LBA
    modifies disk
    ensures ok <==> Accepts(dev, old(disk[..]), Del(pnumber))
    ensures ok <==> 1 <= pnumber <= 4
    ensures disk[..] == Step(dev, old(disk[..]), Del(pnumber))
  {
    if pnumber == 0 || pnumber > ENTRIES {
      return false;
    }
    Store(disk, TABLE + 16 * (pnumber - 1), Zeros(16));
    ok := true;
  }

  method FlagsMsdos(dev: Device, disk: array<byte>, pnumber: nat, primary: bool, flags: word64) returns (ok: bool)
    requires Sane(dev) && disk.Length >= LBA
    modifies disk
    ensures ok <==> Accepts(dev, old(disk[..]), Flags(pnumber, primary, flags))
    ensures ok <==> 1 <= pnumber <= 4 && primary && (flags == 0 || flags == 0x80)
    ensures disk[..] == Step(dev, old(disk[..]), Flags(pnumber, primary, flags))
  {
    if (flags != 0x80 && flags != 0) || !primary || pnumber == 0 || pnumber > ENTRIES {
      return false;
    }
    Store(disk, TABLE + 16 * (pnumber - 1), [flags as byte]);
    ok := true;
  }

  method FlagMsdos(dev: Device, disk: array<byte>, pnumber: nat, primary: bool, flag: word64, status: bool)
    returns (ok: bool)
    requires Sane(dev) && disk.Length >= LBA
    modifies disk
    ensures ok <==> Accepts(dev, old(disk[..]), Flag(pnumber, primary, flag, status))
    ensures ok <==> 1 <= pnumber <= 4 && primary && flag == 0x80
    ensures disk[..] == Step(dev, old(disk[..]), Flag(pnumber, primary, flag, status))
  {
    if flag != 0x80 || !primary || pnumber == 0 || pnumber > ENTRIES {
      return false;
    }
    var at := TABLE + 16 * (pnumber - 1);
    Store(disk, at, [MaskByte(disk[at], flag as byte, status)]);
    ok := true;
  }

  method CodeMsdos(dev: Device, disk: array<byte>, pnumber: nat, mbrcode: Option<byte>) returns (ok: bool)
    requires Sane(dev) && disk.Length >= LBA
    modifies disk
    ensures ok <==> Accepts(dev, old(disk[..]), Code(pnumber, mbrcode))
    ensures ok ==> 1 <= pnumber <= 4
    ensures 1 <= pnumber <= 4 ==>
      var at := 446 + 16 * (pnumber - 1);
      ok <==> mbrcode.Some? && LE(old(disk[at + 8..at + 12])) != 0 && LE(old(disk[at + 12..at + 16])) != 0
    ensures disk[..] == Step(dev, old(disk[..]), Code(pnumber, mbrcode))
  {
    hide LE;
    if mbrcode.None? || pnumber == 0 || pnumber > ENTRIES {
      return false;
    }
    var at := TABLE + 16 * (pnumber - 1);
    var e := disk[at..at + 16];
    assert e == Entry(disk[..], pnumber - 1);
    assert e[8..12] == disk[at + 8..at + 12] && e[12..16] == disk[at + 12..at + 16];
    if LE(e[8..12]) == 0 || LE(e[12..16]) == 0 {
      return false;
    }
    Store(disk, at + 4, [mbrcode.value]);
    ok := true;
  }

  /** initialize_msdos; random is what getrandom delivers, if it does. The boot code stays. */
  method InitializeMsdos(disk: array<byte>, random: Option<bytes>) returns (ok: bool)
    requires disk.Length >= LBA && (random.Some? ==> |random.value| == 4)
    modifies disk
    ensures ok <==> random.Some?
    ensures !ok ==> disk[..] == old(disk[..])
    ensures ok ==> var d := disk[..];
      && d[..BOOT_CODE] == old(disk[..BOOT_CODE]) && d[440..444] == random.value
      && AllZero(d[444..510]) && d[510..512] == [0x55, 0xaa] && d[LBA..] == old(disk[LBA..])
  {
    if random.None? {
      return false;
    }
    ghost var d := disk[..];
    var sig := [0x55, 0xaa];
    Store(disk, BOOT_CODE, random.value);
    Store(disk, 444, Zeros(2));
    Store(disk, TABLE, Zeros(64));
    Store(disk, 510, sig);
    FreshBytes(d, random.value, sig);
    ok := true;
  }

  /** The bytes after the four stores of initialize_msdos. */
  lemma FreshBytes(d: bytes, sig: bytes, boot: bytes)
    requires |d| >= LBA && |sig| == 4 && |boot| == 2
    ensures var r := Put(Put(Put(Put(d, BOOT_CODE, sig), 444, Zeros(2)), TABLE, Zeros(64)), 510, boot);
      && r[..BOOT_CODE] == d[..BOOT_CODE] && r[440..444] == sig
      && AllZero(r[444..510]) && r[510..512] == boot && r[LBA..] == d[LBA..]
  {
    hide Put;
    var d1 := Put(d, BOOT_CODE, sig);
    var d2 := Put(d1, 444, Zeros(2));
    var d3 := Put(d2, TABLE, Zeros(64));
    var r := Put(d3, 510, boot);
    forall i | 0 <= i < |d|
      ensures r[i] == if 440 <= i < 444 then sig[i - 440] else if 444 <= i < 510 then 0
                      else if 510 <= i < 512 then boot[i - 510] else d[i]
    {
      PutAt(d, BOOT_CODE, sig, i);
      PutAt(d1, 444, Zeros(2), i);
      PutAt(d2, TABLE, Zeros(64), i);
      PutAt(d3, 510, boot, i);
    }
  }

  // ---- Runs ----

  function After(dev: Device, d: bytes, rs: seq<Request>): (d': bytes)
    requires Sane(dev) && |d| >= LBA
    ensures |d'| == |d|
    decreases |rs|
  {
    if rs == [] then d else After(dev, Step(dev, d, rs[0]), rs[1..])
  }

  /** Some accepted request of the run stores into entry z. */
  predicate Addresses(dev: Device, d: bytes, rs: seq<Request>, z: nat)
    requires Sane(dev) && |d| >= LBA
    decreases |rs|
  {
    rs != [] && ((Accepts(dev, d, rs[0]) && Target(d, rs[0]) == z) || Addresses(dev, Step(dev, d, rs[0]), rs[1..], z))
  }

  lemma StepKeeps(dev: Device, d: bytes, r: Request)
    requires Sane(dev) && |d| >= LBA
    ensures Step(dev, d, r)[..TABLE] == d[..TABLE]
    ensures Step(dev, d, r)[510..] == d[510..]
    ensures forall z :: 0 <= z < ENTRIES && !(Accepts(dev, d, r) && Target(d, r) == z) ==>
      Entry(Step(dev, d, r), z) == Entry(d, z)
  {
    hide Accepts, Target, Stored;
    if Accepts(dev, d, r) {
      var w := Stored(dev, d, r);
      PutOutside(d, w.0, w.1, 0, TABLE);
      PutOutside(d, w.0, w.1, 510, |d|);
      forall z | 0 <= z < ENTRIES && Target(d, r) != z
        ensures Entry(Step(dev, d, r), z) == Entry(d, z)
      {
        PutOutside(d, w.0, w.1, TABLE + 16 * z, TABLE + 16 * z + 16);
      }
    }
  }

  /**
   Over every run of requests, refused ones included, boot code, disk signature and boot signature
   never change, nor any entry that no accepted request addresses by its own number.
   */
  lemma {:induction false} RunsKeep(dev: Device, d: bytes, rs: seq<Request>)
    requires Sane(dev) && |d| >= LBA
    ensures var d' := After(dev, d, rs);
      && d'[..TABLE] == d[..TABLE] && d'[510..] == d[510..]
      && forall z :: 0 <= z < ENTRIES && !Addresses(dev, d, rs, z) ==> Entry(d', z) == Entry(d, z)
    decreases |rs|
  {
    if rs != [] {
      hide Step, Accepts, Target;
      StepKeeps(dev, d, rs[0]);
      RunsKeep(dev, Step(dev, d, rs[0]), rs[1..]);
    }
  }

  lemma NewEntryFields(code: byte, f: nat, l: nat)
    requires f <= l
    ensures var e := NewEntry(code, f, l);
      && e[4] == code && AllZero(e[..4]) && AllZero(e[5..8])
      && LbaFirst(e) == LE(e[8..12]) == f % 0x1_0000_0000
      && LbaSect(e) == LE(e[12..16]) == (l - f + 1) % 0x1_0000_0000
  {
    hide LE, ToLE;
    var e := NewEntry(code, f, l);
    assert e[8..12] == ToLE(f, 4);
    assert e[12..16] == ToLE(l - f + 1, 4);
    ReadBack(f, 4);
    ReadBack(l - f + 1, 4);
    Pow256Values();
  }

  /** What an accepted request leaves in its entry: one byte changed, or all of it. */
  lemma StepStores(dev: Device, d: bytes, r: Request)
    requires Sane(dev) && |d| >= LBA && Accepts(dev, d, r)
    ensures var was, now := Entry(d, Target(d, r)), Entry(Step(dev, d, r), Target(d, r));
      match r
      case Add(_, f, l, code) => now == NewEntry(code.value, AlignUp(f, Grain(dev)), l)
      case Del(_) => AllZero(now)
      case Flags(_, _, flags) => now == [flags as byte] + was[1..]
      case Flag(_, _, _, on) => now == [MaskByte(was[0], 0x80, on)] + was[1..]
      case Code(_, code) => now == was[..4] + [code.value] + was[5..]
  {
    hide LE, ToLE, NewEntry, AlignUp, AddRefused, FreeEntry, MaskByte, Put;
    var w, at := Stored(dev, d, r), TABLE + 16 * Target(d, r);
    PutInside(d, w.0, w.1, at, at + 16);
    PutWithin(Entry(d, Target(d, r)), w.0 - at, w.1);
  }

  lemma PutWithin(e: bytes, k: nat, s: bytes)
    requires k + |s| <= |e|
    ensures Put(e, k, s) == e[..k] + s + e[k + |s|..]
  {
  }

  /** An add takes the lowest all-zero entry and leaves it in use; deleting its number restores every byte. */
  lemma DeleteUndoesAdd(dev: Device, d: bytes, r: Request)
    requires Sane(dev) && |d| >= LBA && r.Add? && Accepts(dev, d, r) && r.mbrcode.value != 0
    ensures var z := Target(d, r); var w := Step(dev, d, r);
      && AllZero(Entry(d, z)) && (forall k :: 0 <= k < z ==> !AllZero(Entry(d, k)))
      && !AllZero(Entry(w, z))
      && Step(dev, w, Del(z + 1)) == d
  {
    hide LE, ToLE, NewEntry, AlignUp, TooBig, Put;
    var z := Target(d, r);
    var at := TABLE + 16 * z;
    var f := AlignUp(r.fsec, Grain(dev));
    var e := NewEntry(r.mbrcode.value, f, r.lsec);
    PutSame(d, at, e);
    NewEntryFields(r.mbrcode.value, f, r.lsec);
    AllZeroIsZeros(Entry(d, z));
    PutPut(d, at, e, Zeros(16));
    PutSelf(d, at, 16);
  }

  /**
   With sectors of at least 512 bytes and a guard product that does not wrap, an accepted add stores
   its sector count exactly; it stores its start exactly if and only if the aligned start fits 32 bits.
   */
  lemma StoredRange(dev: Device, d: bytes, r: Request)
    requires Sane(dev) && |d| >= LBA && r.Add? && Accepts(dev, d, r)
    requires dev.logsec >= LBA && r.lsec * dev.logsec < TWO64
    ensures var f := AlignUp(r.fsec, Grain(dev)); var e := Entry(Step(dev, d, r), Target(d, r));
      && LbaSect(e) == r.lsec - f + 1
      && (LbaFirst(e) == f <==> f < 0x1_0000_0000)
  {
    hide LE, ToLE, TooBig, Put, NewEntry, AlignUp;
    var f := AlignUp(r.fsec, Grain(dev));
    AlignUpIsLeast(r.fsec, Grain(dev));
    var e := NewEntry(r.mbrcode.value, f, r.lsec);
    PutSame(d, TABLE + 16 * Target(d, r), e);
    NewEntryFields(r.mbrcode.value, f, r.lsec);
    GuardBound(dev, r.fsec, r.lsec);
  }

  /** A start of 2^32, accepted on an empty 4 TiB disk, is stored as 0. */
  lemma StartIsCutExample(dev: Device, d: bytes)
    requires dev == Device(LayoutNone, Some("dos"), 0x400_0000_0000, 512, 512, 1, 0x1_ffff_ffff)
    requires |d| >= LBA && AllZero(d[TABLE..510])
    ensures var r := Add(false, 0x1_0000_0000, 0x1_0000_0007, Some(0x83));
      && Accepts(dev, d, r)
      && LbaFirst(Entry(Step(dev, d, r), Target(d, r))) == 0
      && LbaSect(Entry(Step(dev, d, r), Target(d, r))) == 8
  {
    hide LE, ToLE, NewEntry;
    var r := Add(false, 0x1_0000_0000, 0x1_0000_0007, Some(0x83));
    assert Entry(d, 0) == d[TABLE..510][..16];
    assert AlignUp(r.fsec, Grain(dev)) == r.fsec;
    StepStores(dev, d, r);
    NewEntryFields(0x83, r.fsec, r.lsec);
  }

  /**
   When an add is accepted, with a guard product that does not wrap: no name, a known type, a whole disk
   of whole sectors with a DOS table, at most 2 * 10^12 bytes asked for before rounding, a range that is
   usable and not empty after it, and an entry of the four that is all zeros.
   */
  lemma AddAcceptedIff(dev: Device, d: bytes, r: Request)
    requires Sane(dev) && |d| >= LBA && r.Add? && r.fsec <= r.lsec && (r.lsec - r.fsec) * dev.logsec < TWO64
    ensures Accepts(dev, d, r) <==>
      && !r.named && r.mbrcode.Some? && dev.layout == LayoutNone && dev.pttable == Some("dos") && dev.size % 512 == 0
      && (r.lsec - r.fsec) * dev.logsec <= 2_000_000_000_000
      && FirstUsableSector(dev) <= AlignUp(r.fsec, Grain(dev)) <= r.lsec <= LastUsableSector(dev)
      && exists z :: 0 <= z < 4 && AllZero(d[446 + 16 * z..462 + 16 * z])
  {
    hide AllZero, AlignUp, Grain;
    ModSmall(r.lsec - r.fsec, TWO64);
    ModSmall((r.lsec - r.fsec) * dev.logsec, TWO64);
    FreeEntryIff(d);
  }

  lemma FreeEntryIff(d: bytes)
    requires |d| >= LBA
    ensures FreeEntry(d, 0) < ENTRIES <==> exists z :: 0 <= z < 4 && AllZero(d[446 + 16 * z..462 + 16 * z])
  {
    hide AllZero;
    forall z | 0 <= z < ENTRIES
      ensures Entry(d, z) == d[446 + 16 * z..462 + 16 * z]
    {
    }
  }

  /** A size the guard lets through has a sector count below 2^32. */
  lemma GuardBound(dev: Device, fsec: word64, lsec: word64)
    requires !TooBig(dev, fsec, lsec) && fsec <= lsec
    requires dev.logsec >= LBA && lsec * dev.logsec < TWO64
    ensures lsec - fsec + 1 < 0x1_0000_0000
  {
    var n := lsec - fsec;
    ModSmall(n, TWO64);
    ProductMono(n, lsec, dev.logsec);
    ModSmall(n * dev.logsec, TWO64);
    ProductMono(512, dev.logsec, n);
  }
}
