/**
 The GUID Partition Table as bytes: one header sector, 128 entries of 128 bytes, and a
 second copy of both at the end of the disk (sections 5.3.2 and 5.3.3 of the UEFI
 Specification). Offsets follow the packed structs of src/gpt.h; sectors are 512 bytes.
 */
module GptLayout {
  import opened Arithmetic
  import opened Bytes
  import opened Devices
  import GptGeometry

  const SLOTS: nat := 128
  const ENTRY: nat := 128
  const ARRAY_BYTES: nat := GptGeometry.ARRAY_BYTES
  const GUID: nat := 16

  /** Entries within the five 4096-byte pages that map_gpt maps, 24 of them past the array. */
  const MAPPED: nat := 152

  // ---- Header fields ----

  type Header = h: bytes | |h| == LBA witness Zeros(LBA)
  type Entries = e: bytes | |e| == ARRAY_BYTES witness Zeros(ARRAY_BYTES)

  function HeadSize(h: Header): nat { LE(h[12..16]) }

  function Lba(h: Header): nat { LE(h[24..32]) }

  function BackupLba(h: Header): nat { LE(h[32..40]) }

  function FirstUsable(h: Header): nat { LE(h[40..48]) }

  function LastUsable(h: Header): nat { LE(h[48..56]) }

  function PartLba(h: Header): nat { LE(h[72..80]) }

  function PartCount(h: Header): nat { LE(h[80..84]) }

  function PartSize(h: Header): nat { LE(h[84..88]) }

  /** A header whose checksums cover no more than its own sector and a 16 KiB entry array. */
  predicate Fits(h: Header) {
    HeadSize(h) <= LBA && PartCount(h) <= SLOTS && PartSize(h) <= ENTRY
  }

  /** The shapes update_crc agrees to checksum. */
  predicate Sealable(h: Header) {
    PartSize(h) != 0 && PartSize(h) % ENTRY == 0 && PartCount(h) >= SLOTS
  }

  /** The length update_crc checksums, a product of two 32-bit fields on 32 bits. */
  function TableBytes(h: Header): nat {
    (PartCount(h) * PartSize(h)) % 0x1_0000_0000
  }

  lemma FittingTable(h: Header)
    requires Fits(h)
    ensures TableBytes(h) <= ARRAY_BYTES
    ensures Sealable(h) ==> TableBytes(h) == ARRAY_BYTES
  {
    hide LE;
    ProductMono(PartCount(h), SLOTS, PartSize(h));
    ProductNonNegative(PartCount(h), PartSize(h));
  }

  // ---- Checksums ----

  function Blank(h: Header): Header {
    Put(h, 16, Zeros(4))
  }

  /** The header after update_crc: array checksum first, then the header's own. */
  function Seal(crc: Crc, h: Header, es: bytes): Header
    requires HeadSize(h) <= LBA
  {
    var b := Blank(Put(h, 88, ToLE(crc(es), 4)));
    Put(b, 16, ToLE(crc(b[..HeadSize(h)]), 4))
  }

  predicate Checks(crc: Crc, h: Header, es: bytes)
    requires HeadSize(h) <= LBA
  {
    && LE(h[16..20]) == crc(Blank(h)[..HeadSize(h)])
    && LE(h[88..92]) == crc(es)
  }

  /** h and g agree outside their two checksum fields. */
  predicate SameButCrcs(h: Header, g: Header) {
    forall i :: 0 <= i < LBA && !(16 <= i < 20) && !(88 <= i < 92) ==> h[i] == g[i]
  }

  lemma SealKeeps(crc: Crc, h: Header, es: bytes)
    requires HeadSize(h) <= LBA
    ensures SameButCrcs(h, Seal(crc, h, es))
    ensures forall a, b :: 0 <= a <= b <= LBA && (b <= 16 || (20 <= a && b <= 88) || 92 <= a) ==>
      Seal(crc, h, es)[a..b] == h[a..b]
  {
  }

  lemma SealFields(crc: Crc, h: Header, es: bytes)
    requires HeadSize(h) <= LBA
    ensures var s := Seal(crc, h, es);
      && HeadSize(s) == HeadSize(h) && Lba(s) == Lba(h) && BackupLba(s) == BackupLba(h)
      && FirstUsable(s) == FirstUsable(h) && LastUsable(s) == LastUsable(h) && PartLba(s) == PartLba(h)
      && PartCount(s) == PartCount(h) && PartSize(s) == PartSize(h) && s[32..40] == h[32..40]
  {
    SealKeeps(crc, h, es);
  }

  lemma SealChecks(crc: Crc, h: Header, es: bytes)
    requires HeadSize(h) <= LBA
    ensures HeadSize(Seal(crc, h, es)) <= LBA
    ensures Checks(crc, Seal(crc, h, es), es)
    ensures var s := Seal(crc, h, es);
      && LE(s[16..20]) == crc((s[..16] + [0, 0, 0, 0] + s[20..])[..LE(h[12..16])])
      && LE(s[88..92]) == crc(es)
  {
    var p := Put(h, 88, ToLE(crc(es), 4));
    var b := Blank(p);
    var c := ToLE(crc(b[..HeadSize(h)]), 4);
    var s := Seal(crc, h, es);
    SealFields(crc, h, es);
    PutPut(p, 16, Zeros(4), c);
    PutPut(p, 16, c, Zeros(4));
    assert Blank(s) == b;
    PutSame(b, 16, c);
    ReadBack32(crc(b[..HeadSize(h)]));
    assert s[88..92] == p[88..92];
    PutSame(h, 88, ToLE(crc(es), 4));
    ReadBack32(crc(es));
    assert Blank(s) == s[..16] + [0, 0, 0, 0] + s[20..];
  }

  /** Sealing depends only on what lies outside the checksum fields. */
  lemma SealOfAgreeing(crc: Crc, h: Header, g: Header, es: bytes)
    requires HeadSize(h) <= LBA && SameButCrcs(h, g)
    ensures HeadSize(g) == HeadSize(h)
    ensures Seal(crc, g, es) == Seal(crc, h, es)
  {
    assert g[12..16] == h[12..16];
    var c := ToLE(crc(es), 4);
    assert Blank(Put(h, 88, c)) == Blank(Put(g, 88, c));
  }

  /** A header that checks is left alone. */
  lemma SealOfChecked(crc: Crc, h: Header, es: bytes)
    requires HeadSize(h) <= LBA && Checks(crc, h, es)
    ensures Seal(crc, h, es) == h
  {
    StoreRead(h[88..92]);
    PutSelf(h, 88, 4);
    var p := Put(h, 88, ToLE(crc(es), 4));
    assert p == h;
    StoreRead(h[16..20]);
    PutPut(h, 16, Zeros(4), h[16..20]);
    PutSelf(h, 16, 4);
  }

  // ---- The backup header ----

  /** A header with its lba, backuplba and partlba fields overwritten. */
  function Relocated(h: Header, lba: bytes, backup: bytes, part: bytes): Header
    requires |lba| == |backup| == |part| == 8
  {
    Put(Put(Put(h, 24, lba), 32, backup), 72, part)
  }

  lemma RelocatedFields(h: Header, lba: bytes, backup: bytes, part: bytes)
    requires |lba| == |backup| == |part| == 8
    ensures var b := Relocated(h, lba, backup, part);
      && b[24..32] == lba && b[32..40] == backup && b[72..80] == part
      && b[12..16] == h[12..16] && b[80..84] == h[80..84] && b[84..88] == h[84..88]
      && forall i :: 0 <= i < LBA && !(24 <= i < 40) && !(72 <= i < 80) ==> b[i] == h[i]
  {
    var b1 := Put(h, 24, lba);
    var b2 := Put(b1, 32, backup);
    PutSame(h, 24, lba);
    PutOutside(b1, 32, backup, 24, 32);
    PutOutside(b2, 72, part, 24, 32);
    PutSame(b1, 32, backup);
    PutOutside(b2, 72, part, 32, 40);
    PutSame(b2, 72, part);
    RelocatedKeeps(h, lba, backup, part, 12, 16);
    RelocatedKeeps(h, lba, backup, part, 80, 84);
    RelocatedKeeps(h, lba, backup, part, 84, 88);
    forall i | 0 <= i < LBA && !(24 <= i < 40) && !(72 <= i < 80)
      ensures Relocated(h, lba, backup, part)[i] == h[i]
    {
      PutAt(h, 24, lba, i);
      PutAt(b1, 32, backup, i);
      PutAt(b2, 72, part, i);
    }
  }

  lemma RelocatedKeeps(h: Header, lba: bytes, backup: bytes, part: bytes, a: nat, b: nat)
    requires |lba| == |backup| == |part| == 8
    requires a <= b <= 24 || 80 <= a <= b <= LBA
    ensures Relocated(h, lba, backup, part)[a..b] == h[a..b]
  {
    PutOutside(h, 24, lba, a, b);
    PutOutside(Put(h, 24, lba), 32, backup, a, b);
    PutOutside(Put(Put(h, 24, lba), 32, backup), 72, part, a, b);
  }

  /** Fields update_backup rewrites in its copy of the primary header; n is the array's length in sectors. */
  function BackupOf(h: Header, n: nat): Header {
    Relocated(h, h[32..40], Word64(1), Word64((BackupLba(h) - n) % TWO64))
  }

  /** b is p with lba and backuplba exchanged (for a primary in sector 1) and partlba moved n sectors before b. */
  predicate MirrorHeader(p: Header, b: Header, n: nat) {
    && Lba(b) == BackupLba(p)
    && BackupLba(b) == 1
    && PartLba(b) == (BackupLba(p) - n) % TWO64
    && forall i :: 0 <= i < LBA && !(16 <= i < 20) && !(24 <= i < 40) && !(72 <= i < 80) ==> b[i] == p[i]
  }

  lemma RelocatedMirrors(h: Header, backup: bytes, part: bytes, n: nat)
    requires |backup| == |part| == 8
    requires LE(backup) == 1 && LE(part) == (BackupLba(h) - n) % TWO64
    ensures var b := Relocated(h, h[32..40], backup, part);
      && MirrorHeader(h, b, n)
      && HeadSize(b) == HeadSize(h) && PartCount(b) == PartCount(h) && PartSize(b) == PartSize(h)
  {
    RelocatedFields(h, h[32..40], backup, part);
  }

  lemma BackupFields(h: Header, n: nat)
    ensures var b := BackupOf(h, n);
      && MirrorHeader(h, b, n)
      && HeadSize(b) == HeadSize(h) && PartCount(b) == PartCount(h) && PartSize(b) == PartSize(h)
  {
    var part := (BackupLba(h) - n) % TWO64;
    RelocatedMirrors(h, Word64(1), Word64(part), n);
  }

  lemma MirrorAfterSeal(crc: Crc, p: Header, n: nat, es: bytes)
    requires HeadSize(p) <= LBA && Checks(crc, p, es)
    ensures HeadSize(BackupOf(p, n)) <= LBA
    ensures var b := Seal(crc, BackupOf(p, n), es); MirrorHeader(p, b, n)
  {
    hide LE;
    BackupFields(p, n);
    var g := BackupOf(p, n);
    var b := Seal(crc, g, es);
    SealKeeps(crc, g, es);
    SealFields(crc, g, es);
    SealChecks(crc, g, es);
    StoreRead(b[88..92]);
    StoreRead(p[88..92]);
    assert b[88..92] == p[88..92];
    forall i | 0 <= i < LBA && !(16 <= i < 20) && !(24 <= i < 40) && !(72 <= i < 80)
      ensures b[i] == p[i]
    {
      if 88 <= i < 92 {
        assert b[88..92][i - 88] == p[88..92][i - 88];
      }
    }
  }

  /** A mirror of p whose checksums check can only be what update_backup writes. */
  lemma MirrorIsUnique(crc: Crc, p: Header, b: Header, n: nat, es: bytes)
    requires HeadSize(p) <= LBA && HeadSize(b) <= LBA
    requires MirrorHeader(p, b, n) && Checks(crc, b, es)
    ensures HeadSize(BackupOf(p, n)) <= LBA
    ensures b == Seal(crc, BackupOf(p, n), es)
  {
    hide LE;
    BackupFields(p, n);
    var g := BackupOf(p, n);
    StoreRead(b[24..32]); StoreRead(g[24..32]);
    StoreRead(b[32..40]); StoreRead(g[32..40]);
    StoreRead(b[72..80]); StoreRead(g[72..80]);
    assert b[24..32] == g[24..32] && b[32..40] == g[32..40] && b[72..80] == g[72..80];
    forall i | 0 <= i < LBA && !(16 <= i < 20)
      ensures b[i] == g[i]
    {
      if 24 <= i < 32 {
        assert b[24..32][i - 24] == g[24..32][i - 24];
      } else if 32 <= i < 40 {
        assert b[32..40][i - 32] == g[32..40][i - 32];
      } else if 72 <= i < 80 {
        assert b[72..80][i - 72] == g[72..80][i - 72];
      }
    }
    SealOfChecked(crc, b, es);
    SealOfAgreeing(crc, b, g, es);
  }

  // ---- The whole disk in its edited form ----

  /** A disk cut where the editing path cuts it: a 32-sector array beside each header. */
  datatype Image = Image(mbr: bytes, ph: Header, pe: Entries, data: bytes, be: Entries, bh: Header)

  /** Room for a boot sector and two copies of header and array. */
  const MIN_BYTES: nat := 67 * 512

  predicate DiskSized(n: nat) {
    n >= MIN_BYTES && n % LBA == 0
  }

  function View(d: bytes): (v: Image)
    requires DiskSized(|d|)
  {
    var n := |d|;
    Image(d[0..512], d[512..1024], d[1024..17408], d[17408..n - 16896], d[n - 16896..n - 512], d[n - 512..n])
  }

  function Whole(v: Image): bytes {
    v.mbr + v.ph + v.pe + v.data + v.be + v.bh
  }

  /** The cut loses nothing: equal views are equal disks. */
  lemma ViewIsWhole(d: bytes)
    requires DiskSized(|d|)
    ensures Whole(View(d)) == d
  {
  }

  lemma ViewPutPrimary(d: bytes, ph: Header)
    requires DiskSized(|d|)
    ensures View(Put(d, 512, ph)) == View(d).(ph := ph)
  {
    hide Put;
    var n := |d|;
    PutSame(d, 512, ph);
    PutOutside(d, 512, ph, 0, 512);
    PutOutside(d, 512, ph, 1024, 17408);
    PutOutside(d, 512, ph, 17408, n - 16896);
    PutOutside(d, 512, ph, n - 16896, n - 512);
    PutOutside(d, 512, ph, n - 512, n);
  }

  lemma ViewPutBackupArray(d: bytes, es: Entries)
    requires DiskSized(|d|)
    ensures View(Put(d, |d| - 16896, es)) == View(d).(be := es)
  {
    hide Put;
    var n := |d|;
    PutSame(d, n - 16896, es);
    PutOutside(d, n - 16896, es, 0, 512);
    PutOutside(d, n - 16896, es, 512, 1024);
    PutOutside(d, n - 16896, es, 1024, 17408);
    PutOutside(d, n - 16896, es, 17408, n - 16896);
    PutOutside(d, n - 16896, es, n - 512, n);
  }

  lemma ViewPutBackupHeader(d: bytes, bh: Header)
    requires DiskSized(|d|)
    ensures View(Put(d, |d| - 512, bh)) == View(d).(bh := bh)
  {
    hide Put;
    var n := |d|;
    PutSame(d, n - 512, bh);
    PutOutside(d, n - 512, bh, 0, 512);
    PutOutside(d, n - 512, bh, 512, 1024);
    PutOutside(d, n - 512, bh, 1024, 17408);
    PutOutside(d, n - 512, bh, 17408, n - 16896);
    PutOutside(d, n - 512, bh, n - 16896, n - 512);
  }

  /** The disk after unmap_gpt: checksums, then the backup copy. A shape update_crc refuses is left as it was. */
  function Commit(crc: Crc, v: Image): Image
    requires Fits(v.ph)
  {
    if !Sealable(v.ph) then v
    else
      var ph := Seal(crc, v.ph, v.pe);
      SealFields(crc, v.ph, v.pe);
      BackupFields(ph, 32);
      v.(ph := ph, be := v.pe, bh := Seal(crc, BackupOf(ph, 32), v.pe))
  }

  /** Both headers and both arrays check, the arrays are equal, and the backup header mirrors the primary. */
  predicate GoodTable(crc: Crc, v: Image) {
    && Fits(v.ph) && Sealable(v.ph)
    && HeadSize(v.bh) <= LBA
    && Checks(crc, v.ph, v.pe)
    && Checks(crc, v.bh, v.be)
    && v.be == v.pe
    && MirrorHeader(v.ph, v.bh, 32)
  }

  /** Tables that check in both copies are exactly the fixed points of the commit. */
  lemma GoodIffFixed(crc: Crc, v: Image)
    requires Fits(v.ph) && Sealable(v.ph)
    ensures GoodTable(crc, v) <==> Commit(crc, v) == v
  {
    CommitIsGood(crc, v);
    if GoodTable(crc, v) {
      SealOfChecked(crc, v.ph, v.pe);
      MirrorIsUnique(crc, v.ph, v.bh, 32, v.pe);
    }
  }

  lemma CommitIsGood(crc: Crc, v: Image)
    requires Fits(v.ph) && Sealable(v.ph)
    ensures GoodTable(crc, Commit(crc, v))
    ensures Commit(crc, v).mbr == v.mbr && Commit(crc, v).data == v.data && Commit(crc, v).pe == v.pe
    ensures SameButCrcs(v.ph, Commit(crc, v).ph) && FirstUsable(Commit(crc, v).ph) == FirstUsable(v.ph)
  {
    var ph := Seal(crc, v.ph, v.pe);
    SealKeeps(crc, v.ph, v.pe);
    SealFields(crc, v.ph, v.pe);
    SealChecks(crc, v.ph, v.pe);
    BackupFields(ph, 32);
    SealFields(crc, BackupOf(ph, 32), v.pe);
    SealChecks(crc, BackupOf(ph, 32), v.pe);
    MirrorAfterSeal(crc, ph, 32, v.pe);
  }

  /** Of two commits in a row with different entries the first leaves no trace. */
  lemma CommitForgets(crc: Crc, v: Image, es: Entries, fs: Entries)
    requires Fits(v.ph) && Sealable(v.ph)
    ensures Fits(Commit(crc, v.(pe := es)).ph)
    ensures Commit(crc, Commit(crc, v.(pe := es)).(pe := fs)) == Commit(crc, v.(pe := fs))
  {
    CommitIsGood(crc, v.(pe := es));
    SealFields(crc, v.ph, es);
    SealOfAgreeing(crc, v.ph, Commit(crc, v.(pe := es)).ph, fs);
  }
}
