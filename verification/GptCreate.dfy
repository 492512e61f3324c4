/** Creating and wiping a GPT: initialize_gpt, write_gpt, new_gpt and zap_gpt of src/gpt.c, for 512-byte sectors. */
module GptCreate {
  import opened Arithmetic
  import opened Bytes
  import opened Devices
  import opened GptLayout
  import opened Gpt
  import opened Wrappers
  import GptGeometry
  import Msdos

  const SIGNATURE: bytes := [0x45, 0x46, 0x49, 0x20, 0x50, 0x41, 0x52, 0x54]
  const REVISION: word32 := 0x10000
  const HEADER_BYTES: nat := 92
  const MBR_OFFSET: nat := 440

  /** The 72 bytes new_gpt stores after the boot code. */
  const PROTECTIVE: bytes :=
    [0, 0, 0, 0, 0, 0, 0x80, 0, 0, 0, 0xee, 0xff, 0xff, 0xff, 1, 0, 0, 0, 0xff, 0xff, 0xff, 0xff]
    + Zeros(48) + [0x55, 0xaa]

  /**
   The protective record as an MBR driver reads it: one partition of type 0xee from sector 1 on with the
   largest count, three empty entries and the boot signature.
   */
  lemma ProtectiveMeaning(d: bytes)
    requires |d| >= LBA
    ensures var r := Put(d, MBR_OFFSET, PROTECTIVE); var e := Msdos.Entry(r, 0);
      && e[4] == 0xee && Msdos.LbaFirst(e) == 1 && Msdos.LbaSect(e) == 0xffff_ffff
      && (forall z :: 1 <= z < Msdos.ENTRIES ==> AllZero(Msdos.Entry(r, z)))
      && r[510..512] == [0x55, 0xaa] && r[..440] == d[..440]
  {
    hide Put, LE;
    var r := Put(d, MBR_OFFSET, PROTECTIVE);
    ProtectiveWords();
    PutSame(d, MBR_OFFSET, PROTECTIVE);
    PutOutside(d, MBR_OFFSET, PROTECTIVE, 0, 440);
    SliceOfSlice(r, 440, 72, 6, 22);
    var e: bytes := [0x80, 0, 0, 0, 0xee, 0xff, 0xff, 0xff, 1, 0, 0, 0, 0xff, 0xff, 0xff, 0xff];
    assert PROTECTIVE[6..22] == e;
    assert Msdos.Entry(r, 0) == e;
    assert e[8..12] == [1, 0, 0, 0] && e[12..16] == [0xff, 0xff, 0xff, 0xff];
    assert r[..440] == r[0..440] && d[..440] == d[0..440];
    forall z | 1 <= z < Msdos.ENTRIES
      ensures AllZero(Msdos.Entry(r, z))
    {
      SliceOfSlice(r, 440, 72, 6 + 16 * z, 22 + 16 * z);
    }
    SliceOfSlice(r, 440, 72, 70, 72);
  }

  lemma ProtectiveWords()
    ensures LE([1, 0, 0, 0]) == 1 && LE([0xff, 0xff, 0xff, 0xff]) == 0xffff_ffff
  {
    var one, all: bytes := [1, 0, 0, 0], [0xff, 0xff, 0xff, 0xff];
    assert LE(one[4..]) == 0 && LE(all[4..]) == 0;
    assert LE(one[3..]) == 0 && LE(all[3..]) == 0xff;
    assert LE(one[2..]) == 0 && LE(all[2..]) == 0xffff;
    assert LE(one[1..]) == 0 && LE(all[1..]) == 0xff_ffff;
  }

  // ---- initialize_gpt ----

  function Word32(n: word32): (s: bytes)
    ensures |s| == 4
    ensures LE(s) == n
  {
    ReadBack32(n);
    ToLE(n, 4)
  }

  // The stretches of a fresh header: magic and sizes, locations, identity, array shape.

  function Magic(): (m: bytes)
    ensures |m| == 24
    ensures m[..8] == SIGNATURE && LE(m[8..12]) == REVISION && LE(m[12..16]) == HEADER_BYTES && m[16..24] == Zeros(8)
  {
    hide LE, ToLE;
    var m := SIGNATURE + Word32(REVISION) + Word32(HEADER_BYTES) + Zeros(8);
    assert m[8..12] == Word32(REVISION);
    assert m[12..16] == Word32(HEADER_BYTES);
    m
  }

  function Places(lba: word64, backup: word64, first: word64, last: word64): (m: bytes)
    ensures |m| == 32
    ensures LE(m[0..8]) == lba && LE(m[8..16]) == backup && LE(m[16..24]) == first && LE(m[24..32]) == last
  {
    hide LE, ToLE;
    var m := Word64(lba) + Word64(backup) + Word64(first) + Word64(last);
    assert m[0..8] == Word64(lba);
    assert m[8..16] == Word64(backup);
    assert m[16..24] == Word64(first);
    assert m[24..32] == Word64(last);
    m
  }

  function Shape(part: word64): (m: bytes)
    ensures |m| == 16 && LE(m[0..8]) == part && LE(m[8..12]) == SLOTS && LE(m[12..16]) == ENTRY
  {
    hide LE, ToLE;
    var m := Word64(part) + Word32(SLOTS) + Word32(ENTRY);
    assert m[0..8] == Word64(part);
    assert m[8..12] == Word32(SLOTS);
    assert m[12..16] == Word32(ENTRY);
    m
  }

  /** The last usable sector as initialize_gpt computes it. */
  function LastFor(backup: word64, first: word64): word64 {
    (backup - (first - 1)) % TWO64
  }

  /** The header initialize_gpt makes. */
  function FreshHeader(backup: word64, first: word64, guid: bytes): Header
    requires |guid| == GUID
  {
    hide LE, ToLE;
    Magic() + Places(1, backup, first, LastFor(backup, first)) + guid + Shape(2) + Zeros(424)
  }

  /** What initialize_gpt leaves when it gets no random bytes: no GUID, and no array. */
  function UnfinishedHeader(backup: word64, first: word64): Header {
    hide LE, ToLE;
    Magic() + Places(1, backup, first, LastFor(backup, first)) + Zeros(456)
  }

  /** Every byte of a fresh header as section 5.3.2 of the UEFI Specification lays it out, both checksums still zero. */
  predicate IsFresh(h: Header, backup: word64, first: word64, guid: bytes) {
    && (forall i :: 0 <= i < 8 ==> h[i] == "EFI PART"[i] as int)
    && LE(h[8..12]) == REVISION && HeadSize(h) == LE(h[12..16]) == 92 && AllZero(h[16..24])
    && Lba(h) == LE(h[24..32]) == 1 && BackupLba(h) == LE(h[32..40]) == backup
    && FirstUsable(h) == LE(h[40..48]) == first && LastUsable(h) == LE(h[48..56]) == LastFor(backup, first)
    && h[56..72] == guid
    && PartLba(h) == LE(h[72..80]) == 2 && PartCount(h) == LE(h[80..84]) == 128 && PartSize(h) == LE(h[84..88]) == 128
    && AllZero(h[88..])
  }

  lemma FreshFields(backup: word64, first: word64, guid: bytes)
    requires |guid| == GUID
    ensures IsFresh(FreshHeader(backup, first, guid), backup, first, guid)
  {
    hide LE, ToLE, Magic, Places, Shape;
    var h := FreshHeader(backup, first, guid);
    FrontFields(h, backup, first);
    var s := Shape(2);
    assert h[72..88] == s;
    SliceOfSlice(h, 72, 16, 0, 8);
    SliceOfSlice(h, 72, 16, 8, 12);
    SliceOfSlice(h, 72, 16, 12, 16);
  }

  lemma FrontFields(h: Header, backup: word64, first: word64)
    requires h[..56] == Magic() + Places(1, backup, first, LastFor(backup, first))
    ensures h[..8] == SIGNATURE && LE(h[8..12]) == REVISION && HeadSize(h) == HEADER_BYTES && AllZero(h[16..24])
    ensures Lba(h) == 1 && BackupLba(h) == backup && FirstUsable(h) == first && LastUsable(h) == LastFor(backup, first)
  {
    hide LE, ToLE, Magic, Places;
    var m, p := Magic(), Places(1, backup, first, LastFor(backup, first));
    assert h[0..24] == h[..56][0..24] == m;
    assert h[24..56] == h[..56][24..56] == p;
    SliceOfSlice(h, 0, 24, 0, 8);
    SliceOfSlice(h, 0, 24, 8, 12);
    SliceOfSlice(h, 0, 24, 12, 16);
    SliceOfSlice(h, 0, 24, 16, 24);
    SliceOfSlice(h, 24, 32, 0, 8);
    SliceOfSlice(h, 24, 32, 8, 16);
    SliceOfSlice(h, 24, 32, 16, 24);
    SliceOfSlice(h, 24, 32, 24, 32);
  }

  /** A store into a zeroed header right behind the part p written so far. */
  method StoreNext(disk: array<byte>, at: nat, k: nat, s: bytes, ghost d: bytes, ghost p: bytes)
    requires |d| == disk.Length && at + LBA <= |d| && |p| == k && k + |s| <= LBA
    requires disk[..] == Put(d, at, p + Zeros(LBA - k))
    modifies disk
    ensures disk[..] == Put(d, at, p + s + Zeros(LBA - k - |s|))
  {
    ghost var e := p + Zeros(LBA - k);
    StoreField(disk, at, k, s, d, e);
    assert Put(e, k, s) == p + s + Zeros(LBA - k - |s|);
  }

  /** The stores from lba to last_usable. */
  method StorePlaces(disk: array<byte>, at: nat, backup: word64, first: word64, last: word64,
                     ghost d: bytes, ghost p: bytes)
    requires |d| == disk.Length && at + LBA <= |d| && |p| == 24
    requires disk[..] == Put(d, at, p + Zeros(488))
    modifies disk
    ensures disk[..] == Put(d, at, p + Places(1, backup, first, last) + Zeros(456))
  {
    hide LE, ToLE, Put;
    StoreNext(disk, at, 24, Word64(1), d, p);
    ghost var p1 := p + Word64(1);
    StoreNext(disk, at, 32, Word64(backup), d, p1);
    ghost var p2 := p1 + Word64(backup);
    StoreNext(disk, at, 40, Word64(first), d, p2);
    ghost var p3 := p2 + Word64(first);
    StoreNext(disk, at, 48, Word64(last), d, p3);
    assert p3 + Word64(last) == p + Places(1, backup, first, last);
  }

  /** The stores from partlba to partsize. */
  method StoreShape(disk: array<byte>, at: nat, ghost d: bytes, ghost p: bytes)
    requires |d| == disk.Length && at + LBA <= |d| && |p| == 72
    requires disk[..] == Put(d, at, p + Zeros(440))
    modifies disk
    ensures disk[..] == Put(d, at, p + Shape(2) + Zeros(424))
  {
    hide LE, ToLE, Put;
    StoreNext(disk, at, 72, Word64(2), d, p);
    ghost var p1 := p + Word64(2);
    StoreNext(disk, at, 80, Word32(SLOTS), d, p1);
    ghost var p2 := p1 + Word32(SLOTS);
    StoreNext(disk, at, 84, Word32(ENTRY), d, p2);
    assert p2 + Word32(ENTRY) == p + Shape(2);
  }

  /** memset and the stores from the signature to headsize; crc and the reserved word stay zero. */
  method StoreMagic(disk: array<byte>, at: nat)
    requires at + LBA <= disk.Length
    modifies disk
    ensures disk[..] == Put(old(disk[..]), at, Magic() + Zeros(488))
  {
    hide LE, ToLE, Put;
    ghost var d := disk[..];
    Store(disk, at, Zeros(LBA));
    assert [] + Zeros(LBA) == Zeros(LBA);
    StoreNext(disk, at, 0, SIGNATURE, d, []);
    assert [] + SIGNATURE == SIGNATURE;
    StoreNext(disk, at, 8, Word32(REVISION), d, SIGNATURE);
    ghost var p := SIGNATURE + Word32(REVISION);
    StoreNext(disk, at, 12, Word32(HEADER_BYTES), d, p);
    assert p + Word32(HEADER_BYTES) + Zeros(496) == Magic() + Zeros(488);
  }

  /**
   initialize_gpt on the sector at offset at; random is what getrandom delivers, if it does. Two
   refusals change nothing; without random bytes the header is left unfinished.
   */
  method InitializeGpt(disk: array<byte>, at: nat, backup: word64, first: word64, random: Option<bytes>)
    returns (ok: bool)
    requires at + LBA <= disk.Length && (random.Some? ==> |random.value| == GUID)
    modifies disk
    ensures ok <==> first != 0 && backup >= 2 && random.Some?
    ensures first == 0 || backup < 2 ==> disk[..] == old(disk[..])
    ensures first != 0 && backup >= 2 && random.None? ==>
      disk[..] == Put(old(disk[..]), at, UnfinishedHeader(backup, first))
    ensures ok ==> disk[..] == Put(old(disk[..]), at, FreshHeader(backup, first, random.value))
    ensures ok ==> IsFresh(disk[at..at + LBA], backup, first, random.value)
  {
    hide LE, ToLE, Put, IsFresh, Magic, Places, Shape;
    if first == 0 || backup < 2 {
      return false;
    }
    ghost var d := disk[..];
    var last := LastFor(backup, first);
    StoreMagic(disk, at);
    StorePlaces(disk, at, backup, first, last, d, Magic());
    if random.None? {
      return false;
    }
    ghost var p := Magic() + Places(1, backup, first, last);
    StoreNext(disk, at, 56, random.value, d, p);
    StoreShape(disk, at, d, p + random.value);
    FreshFields(backup, first, random.value);
    PutSame(d, at, FreshHeader(backup, first, random.value));
    assert disk[at..at + LBA] == disk[..][at..at + LBA];
    ok := true;
  }

  /** An unfinished header is one that no edit will commit. */
  lemma UnfinishedIsUnsealable(backup: word64, first: word64)
    ensures Fits(UnfinishedHeader(backup, first)) && !Sealable(UnfinishedHeader(backup, first))
    ensures AllZero(UnfinishedHeader(backup, first)[56..])
    ensures forall guid: bytes :: |guid| == GUID ==>
      UnfinishedHeader(backup, first)[..56] == FreshHeader(backup, first, guid)[..56]
  {
    hide LE, ToLE, Magic, Places;
    var h := UnfinishedHeader(backup, first);
    FrontFields(h, backup, first);
    assert h[80..84] == Zeros(4) && h[84..88] == Zeros(4);
    ZeroWord();
  }

  lemma ZeroWord()
    ensures LE(Zeros(4)) == 0
  {
    assert ToLE(0, 4) == Zeros(4);
    ReadBack32(0);
  }

  // ---- write_gpt ----

  /** Sectors write_gpt counts for one copy of the table on 512-byte sectors: one more than it needs. */
  const CREATED: nat := GptGeometry.CreateLbas(LBA)

  /** The primary header write_gpt leaves over entries es on a disk of n bytes. */
  function CreatedHeader(crc: Crc, n: nat, es: bytes, guid: bytes): (h: Header)
    requires DiskSized(n) && n < TWO64 && |guid| == GUID
    ensures Fits(h) && Sealable(h)
  {
    hide LE, ToLE, Magic, Places, Shape, FreshHeader;
    FreshFields(n / 512 - 1, CREATED, guid);
    SealFields(crc, FreshHeader(n / 512 - 1, CREATED, guid), es);
    Seal(crc, FreshHeader(n / 512 - 1, CREATED, guid), es)
  }

  lemma CreatedFields(crc: Crc, n: nat, es: bytes, guid: bytes)
    requires DiskSized(n) && n < TWO64 && |guid| == GUID
    ensures var h := CreatedHeader(crc, n, es, guid);
      && HeadSize(h) == HEADER_BYTES && Checks(crc, h, es) && Fits(h) && Sealable(h)
      && Lba(h) == 1 && BackupLba(h) == n / 512 - 1
      && FirstUsable(h) == 34 && LastUsable(h) == n / 512 - 34 && PartLba(h) == 2
  {
    hide LE, FreshHeader;
    var f := FreshHeader(n / 512 - 1, CREATED, guid);
    FreshFields(n / 512 - 1, CREATED, guid);
    ModSmall(n / 512 - 34, TWO64);
    SealFields(crc, f, es);
    SealChecks(crc, f, es);
  }

  /** The disk after write_gpt with real data. */
  function Created(crc: Crc, d: bytes, guid: bytes): (r: bytes)
    requires DiskSized(|d|) && |d| < TWO64 && |guid| == GUID
    ensures |r| == |d|
  {
    hide LE, Put, CreatedHeader, TableBytes;
    var h := CreatedHeader(crc, |d|, d[1024..17408], guid);
    FittingTable(h);
    PutSame(d, 512, h);
    WithBackup(crc, Put(d, 512, h), CREATED)
  }

  /** write_gpt with real data: on a disk without random bytes to give, only an unfinished header is written. */
  method WriteGpt(disk: array<byte>, crc: Crc, random: Option<bytes>) returns (ok: bool)
    requires DiskSized(disk.Length) && disk.Length < TWO64 && (random.Some? ==> |random.value| == GUID)
    modifies disk
    ensures ok <==> random.Some?
    ensures ok ==> disk[..] == Created(crc, old(disk[..]), random.value)
    ensures !ok ==> disk[..] == Put(old(disk[..]), 512, UnfinishedHeader(disk.Length / 512 - 1, CREATED))
  {
    hide LE, Put, Seal, BackupOf, FreshHeader, UnfinishedHeader, WithBackup, Sealable, TableBytes;
    ghost var d := disk[..];
    var backup := disk.Length / 512 - 1;
    GptGeometry.CountsOf512();
    var gptlbas := GptGeometry.CreateLbas(LBA);
    ok := InitializeGpt(disk, 512, backup, gptlbas, random);
    if !ok {
      return;
    }
    ghost var h := FreshHeader(backup, CREATED, random.value);
    FreshIsCommitted(crc, d, random.value);
    assert disk[512..1024] == disk[..][512..1024] && disk[1024..17408] == disk[..][1024..17408];
    ok := UpdateCrc(disk, 512, 1024, crc);
    assert disk[512..1024] == disk[..][512..1024];
    UpdateBackup(disk, gptlbas, crc);
  }

  /** The disks between the stores of write_gpt. */
  lemma FreshIsCommitted(crc: Crc, d: bytes, guid: bytes)
    requires DiskSized(|d|) && |d| < TWO64 && |guid| == GUID
    ensures var f, es := FreshHeader(|d| / 512 - 1, CREATED, guid), d[1024..17408];
      var h := CreatedHeader(crc, |d|, es, guid);
      && HeadSize(f) <= LBA && Sealable(f) && TableBytes(f) == TableBytes(h) == ARRAY_BYTES && HeadSize(h) <= LBA
      && Put(d, 512, f)[512..1024] == f && Put(d, 512, f)[1024..17408] == es
      && h == Seal(crc, f, es) && Put(Put(d, 512, f), 512, h) == Put(d, 512, h) && Put(d, 512, h)[512..1024] == h
      && Created(crc, d, guid) == WithBackup(crc, Put(d, 512, h), CREATED)
  {
    hide LE, Put, Seal, BackupOf, FreshHeader, WithBackup, TableBytes;
    var f, es := FreshHeader(|d| / 512 - 1, CREATED, guid), d[1024..17408];
    var h := CreatedHeader(crc, |d|, es, guid);
    FreshFields(|d| / 512 - 1, CREATED, guid);
    CreatedFields(crc, |d|, es, guid);
    FittingTable(f);
    FittingTable(h);
    PutSame(d, 512, f);
    PutOutside(d, 512, f, 1024, 17408);
    PutPut(d, 512, f, h);
    PutSame(d, 512, h);
  }

  /**
   w is d after a zap: the rest of the boot sector, the first 34 sectors behind it and the last 34 whole
   sectors of the disk are zero; every other byte is what it was.
   */
  predicate Zapped(d: bytes, w: bytes) {
    var n := |d| / 512 * 512;
    && |w| == |d|
    && forall i :: 0 <= i < |d| ==> w[i] == if 440 <= i < 17920 || n - 17408 <= i < n then 0 else d[i]
  }

  /** What a zap leaves alone: boot code, the sectors between the two tables, a ragged end. */
  lemma ZapKeeps(d: bytes, w: bytes)
    requires Zapped(d, w) && 17920 <= |d|
    ensures w[..440] == d[..440]
    ensures var n := |d| / 512 * 512;
      w[n..] == d[n..] && (17920 <= n - 17408 ==> w[17920..n - 17408] == d[17920..n - 17408])
    ensures AllZero(w[440..17920]) && var n := |d| / 512 * 512; AllZero(w[n - 17408..n])
  {
  }

  // ---- new_gpt and zap_gpt ----

  /** new_gpt: refuses partitions, ragged sizes and disks under 67 sectors. */
  method NewGpt(dev: Device, disk: array<byte>, crc: Crc, random: Option<bytes>) returns (ok: bool)
    requires dev.size == disk.Length < TWO64 && (random.Some? ==> |random.value| == GUID)
    modifies disk
    ensures ok <==> dev.layout == LayoutNone && DiskSized(dev.size) && random.Some?
    ensures dev.layout != LayoutNone || !DiskSized(dev.size) ==> disk[..] == old(disk[..])
    ensures dev.layout == LayoutNone && DiskSized(dev.size) ==>
      var m := Put(old(disk[..]), MBR_OFFSET, PROTECTIVE);
      disk[..] == if random.Some? then Created(crc, m, random.value)
                  else Put(m, 512, UnfinishedHeader(dev.size / 512 - 1, CREATED))
  {
    if dev.layout != LayoutNone || dev.size % LBA != 0 || dev.size < LBA + 2 * (LBA + SLOTS * ENTRY) {
      return false;
    }
    hide LE, Put, Created, UnfinishedHeader;
    Store(disk, MBR_OFFSET, PROTECTIVE);
    ok := WriteGpt(disk, crc, random);
  }

  /** zap_gpt: clears what follows the boot code, then both table stretches. */
  method ZapGpt(dev: Device, disk: array<byte>) returns (ok: bool)
    requires dev.size == disk.Length && 17920 <= dev.size
    modifies disk
    ensures ok <==> dev.layout == LayoutNone && dev.pttable == Some("gpt")
    ensures !ok ==> disk[..] == old(disk[..])
    ensures ok ==> Zapped(old(disk[..]), disk[..])
  {
    hide Put;
    if dev.layout != LayoutNone || dev.pttable != Some("gpt") {
      return false;
    }
    GptGeometry.CountsOf512();
    var gptlbas := GptGeometry.CreateLbas(LBA);
    ghost var d := disk[..];
    Store(disk, MBR_OFFSET, Zeros(72));
    Store(disk, LBA, Zeros(LBA * gptlbas));
    Store(disk, LBA * (disk.Length / LBA - gptlbas), Zeros(LBA * gptlbas));
    ThreeStores(d);
    ok := true;
  }

  /** The bytes after zap_gpt's stores. */
  lemma ThreeStores(d: bytes)
    requires 17920 <= |d|
    ensures Zapped(d, Put(Put(Put(d, MBR_OFFSET, Zeros(72)), 512, Zeros(17408)), 512 * (|d| / 512 - 34), Zeros(17408)))
  {
    hide Put;
    var d1 := Put(d, MBR_OFFSET, Zeros(72));
    var d2 := Put(d1, 512, Zeros(17408));
    var at := 512 * (|d| / 512 - 34);
    forall i | 0 <= i < |d|
      ensures Put(d2, at, Zeros(17408))[i] == if 440 <= i < 17920 || at <= i < at + 17408 then 0 else d[i]
    {
      PutAt(d, MBR_OFFSET, Zeros(72), i);
      PutAt(d1, 512, Zeros(17408), i);
      PutAt(d2, at, Zeros(17408), i);
    }
  }

  // ---- What creation promises, and where it does not ----

  /** A disk with a new primary header and the 33 sectors behind it copied towards the end. */
  function HeaderAndCopy(d: bytes, h: Header): (r: bytes)
    requires DiskSized(|d|)
    ensures |r| == |d|
  {
    var d1 := Put(d, 512, h);
    Put(d1, |d| - 17408, d1[1024..17920])
  }

  /** Its stretches once a backup header is there too. */
  lemma CreatedStretches(d: bytes, h: Header, bh: Header)
    requires DiskSized(|d|) && 68 * 512 <= |d|
    ensures var n := |d|; var d2 := HeaderAndCopy(d, h); var r := Put(d2, n - 512, bh);
      && d2[n - 17408..n - 1024] == d[1024..17408]
      && r[..512] == d[..512] && r[512..1024] == h && r[1024..n - 17408] == d[1024..n - 17408]
      && r[1024..17408] == d[1024..17408]
      && r[n - 17408..n - 1024] == d[1024..17408] && r[n - 512..] == bh
  {
    hide Put;
    var n, at := |d|, |d| - 17408;
    var d1 := Put(d, 512, h);
    var copy := d1[1024..17920];
    var d2 := HeaderAndCopy(d, h);
    PutSame(d, 512, h);
    PutOutside(d, 512, h, 1024, 17408);
    PutSame(d1, at, copy);
    SliceOfSlice(d2, at, 16896, 0, ARRAY_BYTES);
    SliceOfSlice(d1, 1024, 16896, 0, ARRAY_BYTES);
    KeptThroughout(d, h, bh, 0, 512);
    KeptThroughout(d, h, bh, 1024, at);
    KeptThroughout(d, h, bh, 1024, 17408);
    PutOutside(d1, at, copy, 512, 1024);
    PutOutside(d2, n - 512, bh, 512, 1024);
    PutOutside(d2, n - 512, bh, at, n - 1024);
    PutSame(d2, n - 512, bh);
  }

  lemma KeptThroughout(d: bytes, h: Header, bh: Header, a: nat, b: nat)
    requires DiskSized(|d|) && (a <= b <= 512 || 1024 <= a <= b <= |d| - 17408)
    ensures Put(HeaderAndCopy(d, h), |d| - 512, bh)[a..b] == d[a..b]
  {
    hide Put;
    var d1 := Put(d, 512, h);
    PutOutside(d, 512, h, a, b);
    PutOutside(d1, |d| - 17408, d1[1024..17920], a, b);
    PutOutside(HeaderAndCopy(d, h), |d| - 512, bh, a, b);
  }

  /** The backup header update_backup makes of h and the array copy es. */
  function SealedBackup(crc: Crc, h: Header, es: bytes): Header
    requires HeadSize(h) <= LBA
  {
    BackupFields(h, 33);
    Seal(crc, BackupOf(h, 33), es)
  }

  /** The backup header write_gpt leaves. */
  function CreatedBackup(crc: Crc, n: nat, es: bytes, guid: bytes): Header
    requires DiskSized(n) && n < TWO64 && |guid| == GUID
  {
    SealedBackup(crc, CreatedHeader(crc, n, es, guid), es)
  }

  lemma CreatedBackupFields(crc: Crc, n: nat, es: bytes, guid: bytes)
    requires DiskSized(n) && n < TWO64 && |guid| == GUID
    ensures var ph := CreatedHeader(crc, n, es, guid); var bh := CreatedBackup(crc, n, es, guid);
      && HeadSize(bh) <= LBA && Checks(crc, bh, es) && MirrorHeader(ph, bh, 33) && PartLba(bh) == n / 512 - 34
  {
    hide LE, Seal, BackupOf;
    var h := CreatedHeader(crc, n, es, guid);
    CreatedFields(crc, n, es, guid);
    BackupFields(h, 33);
    var g := BackupOf(h, 33);
    MirrorAfterSeal(crc, h, 33, es);
    SealFields(crc, g, es);
    SealChecks(crc, g, es);
    MirrorPartLba(h, Seal(crc, g, es), 33);
  }

  /** The stores of update_backup behind a created header. */
  lemma WithHeader(crc: Crc, d: bytes, guid: bytes)
    requires DiskSized(|d|) && |d| < TWO64 && |guid| == GUID
    ensures var n, h := |d|, CreatedHeader(crc, |d|, d[1024..17408], guid);
      var d2 := HeaderAndCopy(d, h);
      Created(crc, d, guid) == Put(d2, n - 512, SealedBackup(crc, h, d2[n - 17408..n - 1024]))
  {
    hide LE, Seal, BackupOf, Put, WithBackup;
    var h := CreatedHeader(crc, |d|, d[1024..17408], guid);
    CreatedFields(crc, |d|, d[1024..17408], guid);
    PutSame(d, 512, h);
    WithBackupIs(crc, Put(d, 512, h), CREATED);
  }

  /** A created disk of 68 sectors or more, stretch by stretch; sectors 34 up to the backup keep their bytes. */
  lemma CreatedIs(crc: Crc, d: bytes, guid: bytes)
    requires DiskSized(|d|) && 68 * 512 <= |d| < TWO64 && |guid| == GUID
    ensures var r := Created(crc, d, guid); var n, es := |d|, d[1024..17408];
      && r[..512] == d[..512] && r[1024..n - 17408] == d[1024..n - 17408]
      && r[512..1024] == CreatedHeader(crc, n, es, guid) && r[n - 512..] == CreatedBackup(crc, n, es, guid)
      && r[n - 17408..n - 1024] == r[1024..17408] == es
  {
    hide LE, Seal, BackupOf, Put, WithBackup;
    var n, es := |d|, d[1024..17408];
    CreatedFields(crc, n, es, guid);
    BackupFields(CreatedHeader(crc, n, es, guid), 33);
    WithHeader(crc, d, guid);
    CreatedStretches(d, CreatedHeader(crc, n, es, guid), CreatedBackup(crc, n, es, guid));
  }

  /** The created form: everything an edited table has, with the backup array one sector lower. */
  predicate GoodCreated(crc: Crc, r: bytes)
    requires DiskSized(|r|)
  {
    var ph: Header, bh: Header, n := r[512..1024], r[|r| - 512..], |r|;
    && Fits(ph) && Sealable(ph) && HeadSize(bh) <= LBA
    && Checks(crc, ph, r[1024..17408]) && Checks(crc, bh, r[n - 17408..n - 1024])
    && r[n - 17408..n - 1024] == r[1024..17408]
    && MirrorHeader(ph, bh, 33)
    && FirstUsable(ph) == 34 && LastUsable(ph) == n / 512 - 34 == PartLba(bh)
  }

  /**
   On 68 sectors or more both copies of a created table check and the backup mirrors the primary;
   the backup array starts at the last usable sector, one lower than every later edit puts it.
   */
  lemma CreatedChecks(crc: Crc, d: bytes, guid: bytes)
    requires DiskSized(|d|) && 68 * 512 <= |d| < TWO64 && |guid| == GUID
    ensures GoodCreated(crc, Created(crc, d, guid))
  {
    hide LE, Seal, BackupOf, Checks, MirrorHeader, Created, CreatedHeader, CreatedBackup, Fits, Sealable, HeadSize;
    var n, es := |d|, d[1024..17408];
    CreatedIs(crc, d, guid);
    CreatedFields(crc, n, es, guid);
    CreatedBackupFields(crc, n, es, guid);
  }

  /** A table is empty after creation exactly when the sectors of its array held zeros before. */
  lemma CreatedIsEmpty(crc: Crc, d: bytes, guid: bytes)
    requires DiskSized(|d|) && 68 * 512 <= |d| < TWO64 && |guid| == GUID
    ensures AllZero(Created(crc, d, guid)[1024..17408]) <==> AllZero(d[1024..17408])
  {
    hide Created;
    CreatedIs(crc, d, guid);
  }

  /** At 67 sectors the copy of the array's first sector lands on its last. */
  lemma SmallestStretches(d: bytes, h: Header, bh: Header)
    requires |d| == MIN_BYTES
    ensures var r := Put(HeaderAndCopy(d, h), 33792, bh);
      r[1024..16896] == d[1024..16896] && r[16896..17408] == d[1024..1536]
  {
    var d1 := Put(d, 512, h);
    var copy := d1[1024..17920];
    var d2 := Put(d1, 16896, copy);
    PutOutside(d, 512, h, 1024, 16896);
    PutOutside(d1, 16896, copy, 1024, 16896);
    PutOutside(d2, 33792, bh, 1024, 16896);
    PutOutside(d2, 33792, bh, 16896, 17408);
    PutSame(d1, 16896, copy);
    SliceOfSlice(d2, 16896, 16896, 0, 512);
    SliceOfSlice(d1, 1024, 16896, 0, 512);
    PutOutside(d, 512, h, 1024, 1536);
  }

  lemma Rejoined(s: bytes, a: nat, b: nat, c: nat)
    requires a <= b <= c <= |s|
    ensures s[a..c] == s[a..b] + s[b..c]
  {
  }

  /** At the 67 sectors new_gpt accepts, the primary array survives only if its first and last sectors were equal. */
  lemma CreatedTooSmall(crc: Crc, d: bytes, guid: bytes)
    requires |d| == MIN_BYTES && |guid| == GUID
    ensures Created(crc, d, guid)[1024..17408] == d[1024..17408] <==> d[1024..1536] == d[16896..17408]
  {
    hide LE, Seal, BackupOf, Put, WithBackup;
    var h := CreatedHeader(crc, |d|, d[1024..17408], guid);
    var d2 := HeaderAndCopy(d, h);
    var r := Created(crc, d, guid);
    WithHeader(crc, d, guid);
    SmallestStretches(d, h, SealedBackup(crc, h, d2[16896..33280]));
    Rejoined(r, 1024, 16896, 17408);
    Rejoined(d, 1024, 16896, 17408);
    if r[1024..17408] == d[1024..17408] {
      assert r[1024..17408][15872..] == d[1024..17408][15872..];
      SliceOfSlice(r, 1024, ARRAY_BYTES, 15872, ARRAY_BYTES);
      SliceOfSlice(d, 1024, ARRAY_BYTES, 15872, ARRAY_BYTES);
    }
  }

  lemma MirrorPartLba(p: Header, b: Header, n: nat)
    requires MirrorHeader(p, b, n) && n <= BackupLba(p) < TWO64
    ensures PartLba(b) == BackupLba(p) - n
  {
  }

  lemma ZerosSlice(n: nat, a: nat, b: nat)
    requires a <= b <= n
    ensures Zeros(n)[a..b] == Zeros(b - a)
  {
  }

  /** Creation over zeros: with nothing to copy, the primary and backup headers are the only changes. */
  lemma CreatedOverZeros(crc: Crc, d: bytes, guid: bytes)
    requires DiskSized(|d|) && |d| < TWO64 && |guid| == GUID
    requires d[1024..17920] == Zeros(16896) && d[|d| - 17408..|d| - 512] == Zeros(16896)
    ensures var n, es := |d|, Zeros(ARRAY_BYTES);
      Created(crc, d, guid)
      == Put(Put(d, 512, CreatedHeader(crc, n, es, guid)), n - 512, CreatedBackup(crc, n, es, guid))
  {
    hide LE, Seal, BackupOf, Put, WithBackup, Created, CreatedHeader, SealedBackup, Fits, Sealable;
    var n, es, at := |d|, Zeros(ARRAY_BYTES), |d| - 17408;
    SliceOfSlice(d, 1024, 16896, 0, ARRAY_BYTES);
    ZerosSlice(16896, 0, ARRAY_BYTES);
    var h := CreatedHeader(crc, n, es, guid);
    WithHeader(crc, d, guid);
    var d1 := Put(d, 512, h);
    PutSame(d, 512, h);
    PutOutside(d, 512, h, 1024, 17920);
    PutOutside(d, 512, h, at, n - 512);
    PutSelf(d1, at, 16896);
    assert d1[1024..1024 + 512 * (CREATED - 1)] == d1[at..at + 16896];
    SliceOfSlice(d1, at, 16896, 0, ARRAY_BYTES);
    assert d1[at..at + ARRAY_BYTES] == es;
  }

  /**
   A zap followed by a creation: every entry zero in both copies, all checksums good, boot code kept, and
   the sectors between the zapped stretches too.
   */
  lemma WipeThenCreate(crc: Crc, d: bytes, w: bytes, guid: bytes)
    requires DiskSized(|d|) && |d| < TWO64 && |guid| == GUID && Zapped(d, w)
    ensures var r := Created(crc, Put(w, MBR_OFFSET, PROTECTIVE), guid); var n := |d|;
      && r[..440] == d[..440] && r[440..512] == PROTECTIVE
      && AllZero(r[1024..17408]) && AllZero(r[n - 17408..n - 1024])
      && (17920 <= n - 17408 ==> r[17920..n - 17408] == d[17920..n - 17408])
      && GoodCreated(crc, r)
  {
    hide LE, Seal, BackupOf, Checks, MirrorHeader, Created, Zapped, Fits, Sealable, Put, CreatedHeader, CreatedBackup;
    ZapLength(d, w);
    var n, es := |d|, Zeros(ARRAY_BYTES);
    var m := Put(w, MBR_OFFSET, PROTECTIVE);
    ZapKeeps(d, w);
    assert n / 512 * 512 == n;
    ZappedStretches(w);
    PutOutside(w, MBR_OFFSET, PROTECTIVE, 0, 440);
    PutSame(w, MBR_OFFSET, PROTECTIVE);
    PutOutside(w, MBR_OFFSET, PROTECTIVE, 1024, 17920);
    PutOutside(w, MBR_OFFSET, PROTECTIVE, n - 17408, n - 512);
    CreatedOverZeros(crc, m, guid);
    var h, bh := CreatedHeader(crc, n, es, guid), CreatedBackup(crc, n, es, guid);
    CreatedFields(crc, n, es, guid);
    CreatedBackupFields(crc, n, es, guid);
    HeadersOnly(m, h, bh);
    if 17920 <= n - 17408 {
      PutOutside(w, MBR_OFFSET, PROTECTIVE, 17920, n - 17408);
      PutOutside(m, 512, h, 17920, n - 17408);
      PutOutside(Put(m, 512, h), n - 512, bh, 17920, n - 17408);
    }
  }

  lemma ZapLength(d: bytes, w: bytes)
    requires Zapped(d, w)
    ensures |w| == |d|
  {
  }

  lemma ZappedStretches(w: bytes)
    requires DiskSized(|w|) && AllZero(w[440..17920]) && AllZero(w[|w| - 17408..|w|])
    ensures w[1024..17920] == Zeros(16896) && w[|w| - 17408..|w| - 512] == Zeros(16896)
  {
    SliceOfSlice(w, 440, 17480, 584, 17480);
    SliceOfSlice(w, |w| - 17408, 17408, 0, 16896);
  }

  /** Two new headers over zeroed arrays. */
  lemma HeadersOnly(m: bytes, h: Header, bh: Header)
    requires DiskSized(|m|)
    requires m[1024..17920] == Zeros(16896) && m[|m| - 17408..|m| - 512] == Zeros(16896)
    ensures var r := Put(Put(m, 512, h), |m| - 512, bh); var n := |m|;
      && r[..440] == m[..440] && r[440..512] == m[440..512]
      && r[512..1024] == h && r[n - 512..] == bh
      && r[1024..17408] == Zeros(ARRAY_BYTES) && r[n - 17408..n - 1024] == Zeros(ARRAY_BYTES)
  {
    hide Put, Zeros;
    var n := |m|;
    var m1 := Put(m, 512, h);
    var r := Put(m1, n - 512, bh);
    assert r[..440] == r[0..440] && r[n - 512..] == r[n - 512..n];
    ZerosSlice(16896, 0, ARRAY_BYTES);
    PutSame(m, 512, h);
    PutOutside(m, 512, h, 0, 440);
    PutOutside(m, 512, h, 440, 512);
    PutOutside(m, 512, h, 1024, 17408);
    PutOutside(m, 512, h, n - 17408, n - 1024);
    PutSame(m1, n - 512, bh);
    PutOutside(m1, n - 512, bh, 0, 440);
    PutOutside(m1, n - 512, bh, 440, 512);
    PutOutside(m1, n - 512, bh, 512, 1024);
    PutOutside(m1, n - 512, bh, 1024, 17408);
    PutOutside(m1, n - 512, bh, n - 17408, n - 1024);
    SliceOfSlice(m, 1024, 16896, 0, ARRAY_BYTES);
    SliceOfSlice(m, n - 17408, 16896, 0, ARRAY_BYTES);
  }

  /** The first edit moves the backup array up one sector and makes the table good; the stale first sector stays. */
  lemma FirstEditMovesBackup(crc: Crc, d: bytes, guid: bytes, es: Entries)
    requires DiskSized(|d|) && 68 * 512 <= |d| < TWO64 && |guid| == GUID
    ensures var v, n := View(Created(crc, d, guid)), |d|;
      && Fits(v.ph)
      && var w := Commit(crc, v.(pe := es));
      && GoodTable(crc, w) && PartLba(w.bh) == n / 512 - 33
      && w.data == v.data && w.data[n - 34816..] == d[1024..1536]
  {
    hide LE, Seal, BackupOf, Checks, Created;
    var n := |d|;
    var r := Created(crc, d, guid);
    CreatedIs(crc, d, guid);
    CreatedFields(crc, n, d[1024..17408], guid);
    CommitIsGood(crc, View(r).(pe := es));
    SealFields(crc, View(r).ph, es);
    MirrorPartLba(Commit(crc, View(r).(pe := es)).ph, Commit(crc, View(r).(pe := es)).bh, 32);
    StaleSector(d, r);
  }

  lemma StaleSector(d: bytes, r: bytes)
    requires DiskSized(|d|) && |d| == |r| >= 68 * 512 && r[|r| - 17408..|r| - 1024] == d[1024..17408]
    ensures View(r).data[|d| - 34816..] == d[1024..1536]
  {
    var n, data := |d|, View(r).data;
    SliceOfSlice(r, 17408, n - 34304, n - 34816, n - 34304);
    assert data[n - 34816..] == data[n - 34816..n - 34304];
    SliceOfSlice(r, n - 17408, ARRAY_BYTES, 0, 512);
    SliceOfSlice(d, 1024, ARRAY_BYTES, 0, 512);
  }
}
