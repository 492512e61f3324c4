/** Committing GPT edits: update_crc, update_backup, unmap_gpt and write_gpt of src/gpt.c, on the disk's bytes. */
module Gpt {
  import opened Arithmetic
  import opened Bytes
  import opened Devices
  import opened GptLayout
  import GptGeometry

  /** update_crc: refuses unsupported shapes, else seals the header at hoff over the array at eoff. */
  method UpdateCrc(disk: array<byte>, hoff: nat, eoff: nat, crc: Crc) returns (ok: bool)
    requires hoff + LBA <= disk.Length && HeadSize(disk[hoff..hoff + LBA]) <= LBA
    requires eoff + TableBytes(disk[hoff..hoff + LBA]) <= disk.Length
    modifies disk
    ensures ok == Sealable(old(disk[hoff..hoff + LBA]))
    ensures !ok ==> disk[..] == old(disk[..])
    ensures ok ==> disk[..] == Put(old(disk[..]), hoff,
      Seal(crc, old(disk[hoff..hoff + LBA]), old(disk[eoff..eoff + TableBytes(disk[hoff..hoff + LBA])])))
  {
    hide LE;
    HeaderFieldsInDisk(disk[..], hoff);
    var size := LE(disk[hoff + 84..hoff + 88]);
    if size == 0 || size % ENTRY != 0 {
      return false;
    }
    var count := LE(disk[hoff + 80..hoff + 84]);
    if count < SLOTS {
      return false;
    }
    SealInPlace(disk, hoff, disk[eoff..eoff + (count * size) % 0x1_0000_0000], crc);
    ok := true;
  }

  /** The stores of update_crc, given the bytes of the entry array. */
  method SealInPlace(disk: array<byte>, hoff: nat, es: bytes, crc: Crc)
    requires hoff + LBA <= disk.Length
    requires HeadSize(disk[hoff..hoff + LBA]) <= LBA
    modifies disk
    ensures disk[..] == Put(old(disk[..]), hoff, Seal(crc, old(disk[hoff..hoff + LBA]), es))
  {
    hide LE, Put, Blank;
    ghost var d := disk[..];
    HeaderFieldsInDisk(d, hoff);
    var hs := LE(disk[hoff + 12..hoff + 16]);
    var partcrc := ToLE(crc(es), 4);
    Store(disk, hoff + 88, partcrc);
    Store(disk, hoff + 16, Zeros(4));
    BlankInDisk(d, hoff, partcrc);
    ghost var b := Blank(Put(d[hoff..hoff + LBA], 88, partcrc));
    SliceOfSlice(disk[..], hoff, LBA, 0, hs);
    var headcrc := ToLE(crc(disk[hoff..hoff + hs]), 4);
    Store(disk, hoff + 16, headcrc);
    PutNest(d, hoff, b, 16, headcrc);
  }

  lemma SliceOfSlice(d: bytes, off: nat, n: nat, a: nat, b: nat)
    requires a <= b <= n && off + n <= |d|
    ensures d[off + a..off + b] == d[off..off + n][a..b]
  {
    var s, t := d[off + a..off + b], d[off..off + n][a..b];
    forall i | 0 <= i < b - a
      ensures s[i] == t[i]
    {
      assert t[i] == d[off..off + n][a + i] == d[off + a + i];
    }
  }

  lemma HeaderFieldsInDisk(d: bytes, off: nat)
    requires off + LBA <= |d|
    ensures LE(d[off + 12..off + 16]) == HeadSize(d[off..off + LBA])
    ensures LE(d[off + 80..off + 84]) == PartCount(d[off..off + LBA])
    ensures LE(d[off + 84..off + 88]) == PartSize(d[off..off + LBA])
  {
    SliceOfSlice(d, off, LBA, 12, 16);
    SliceOfSlice(d, off, LBA, 80, 84);
    SliceOfSlice(d, off, LBA, 84, 88);
  }

  lemma BlankInDisk(d: bytes, off: nat, partcrc: bytes)
    requires off + LBA <= |d| && |partcrc| == 4
    ensures var b := Blank(Put(d[off..off + LBA], 88, partcrc));
      var d2 := Put(Put(d, off + 88, partcrc), off + 16, Zeros(4));
      d2 == Put(d, off, b) && d2[off..off + LBA] == b
  {
  }

  /** The bytes after update_backup copies array and moved header of a g-sector table to the end of the disk. */
  function Moved(d: bytes, g: nat): (r: bytes)
    requires 33 <= g && 512 * (g + 2) <= |d|
    ensures |r| == |d|
  {
    Put(Put(d, |d| - 512 * g, d[1024..1024 + 512 * (g - 1)]), |d| - LBA, BackupOf(d[512..1024], g - 1))
  }

  /** The bytes after update_backup; a shape update_crc refuses leaves the copy without new checksums. */
  function WithBackup(crc: Crc, d: bytes, g: nat): (r: bytes)
    requires 33 <= g && 512 * (g + 2) <= |d|
    requires HeadSize(d[512..1024]) <= LBA && TableBytes(d[512..1024]) <= 512 * g
    ensures |r| == |d|
  {
    var at, b := |d| - 512 * g, BackupOf(d[512..1024], g - 1);
    BackupFields(d[512..1024], g - 1);
    if !Sealable(b) then Moved(d, g)
    else Put(Moved(d, g), |d| - LBA, Seal(crc, b, Moved(d, g)[at..at + TableBytes(b)]))
  }

  /** update_backup with real data: g counts the sectors of one table copy, header included. */
  method UpdateBackup(disk: array<byte>, g: nat, crc: Crc)
    requires 33 <= g && 512 * (g + 2) <= disk.Length
    requires HeadSize(disk[512..1024]) <= LBA && TableBytes(disk[512..1024]) <= 512 * g
    modifies disk
    ensures disk[..] == WithBackup(crc, old(disk[..]), g)
  {
    hide LE, Seal, BackupOf, Sealable, Put, TableBytes;
    ghost var d := disk[..];
    var at := disk.Length - 512 * g;
    Store(disk, at, disk[1024..1024 + 512 * (g - 1)]);
    MovedHeader(d, g);
    MoveHeader(disk, g - 1);
    var sealed := UpdateCrc(disk, disk.Length - LBA, at, crc);
  }

  /** The header is copied from sectors the copy of the array does not touch, and arrives whole. */
  lemma MovedHeader(d: bytes, g: nat)
    requires 33 <= g && 512 * (g + 2) <= |d|
    ensures var b := BackupOf(d[512..1024], g - 1);
      && Put(d, |d| - 512 * g, d[1024..1024 + 512 * (g - 1)])[512..1024] == d[512..1024]
      && Moved(d, g)[|d| - LBA..] == Moved(d, g)[|d| - LBA..|d| - LBA + LBA] == b
      && HeadSize(b) == HeadSize(d[512..1024]) && TableBytes(b) == TableBytes(d[512..1024])
  {
    hide LE, BackupOf, Put;
    var at, es := |d| - 512 * g, d[1024..1024 + 512 * (g - 1)];
    PutOutside(d, at, es, 512, 1024);
    BackupFields(d[512..1024], g - 1);
    PutSame(Put(d, at, es), |d| - LBA, BackupOf(d[512..1024], g - 1));
  }

  /** For the 16 KiB array of 128 entries: array copied, sealed header last. */
  lemma WithBackupIs(crc: Crc, d: bytes, g: nat)
    requires 33 <= g && 512 * (g + 2) <= |d|
    requires Fits(d[512..1024]) && Sealable(d[512..1024])
    ensures TableBytes(d[512..1024]) <= 512 * g && HeadSize(BackupOf(d[512..1024], g - 1)) <= LBA
    ensures var at, b := |d| - 512 * g, BackupOf(d[512..1024], g - 1);
      var copied := Put(d, at, d[1024..1024 + 512 * (g - 1)]);
      WithBackup(crc, d, g) == Put(copied, |d| - LBA, Seal(crc, b, copied[at..at + ARRAY_BYTES]))
  {
    hide LE, Seal, BackupOf, Put;
    var at, hat, b := |d| - 512 * g, |d| - LBA, BackupOf(d[512..1024], g - 1);
    var copied := Put(d, at, d[1024..1024 + 512 * (g - 1)]);
    BackupFields(d[512..1024], g - 1);
    FittingTable(d[512..1024]);
    FittingTable(b);
    PutOutside(copied, hat, b, at, at + ARRAY_BYTES);
    PutPut(copied, hat, b, Seal(crc, b, copied[at..at + ARRAY_BYTES]));
  }

  /** The header half of update_backup: copy the sector, then lba, backuplba and partlba in place. */
  method MoveHeader(disk: array<byte>, n: nat)
    requires 3 * LBA <= disk.Length
    modifies disk
    ensures disk[..] == Put(old(disk[..]), disk.Length - LBA, BackupOf(old(disk[512..1024]), n))
  {
    hide LE, Put;
    ghost var d := disk[..];
    ghost var h := d[512..1024];
    var hat := disk.Length - LBA;
    Store(disk, hat, disk[512..1024]);
    // lba becomes the copied backuplba
    PutSame(d, hat, h);
    SliceOfSlice(disk[..], hat, LBA, 32, 40);
    var lba := disk[hat + 32..hat + 40];
    StoreField(disk, hat, 24, lba, d, h);
    MoveCounts(disk, d, Put(h, 24, lba), LE(lba) - n);
  }

  /** backuplba names the primary; partlba counts back from lba. */
  method MoveCounts(disk: array<byte>, ghost d: bytes, ghost h: Header, part: int)
    requires 3 * LBA <= disk.Length == |d|
    requires disk[..] == Put(d, |d| - LBA, h)
    modifies disk
    ensures disk[..] == Put(d, |d| - LBA, Put(Put(h, 32, Word64(1)), 72, Word64(part % TWO64)))
  {
    var hat := disk.Length - LBA;
    var one := Word64(1);
    StoreField(disk, hat, 32, one, d, h);
    StoreField(disk, hat, 72, Word64(part % TWO64), d, Put(h, 32, one));
  }

  /** unmap_gpt: what every edit does last. */
  method UnmapGpt(disk: array<byte>, crc: Crc) returns (ok: bool)
    requires DiskSized(disk.Length) && Fits(View(disk[..]).ph)
    modifies disk
    ensures ok == Sealable(old(View(disk[..])).ph)
    ensures View(disk[..]) == Commit(crc, old(View(disk[..])))
  {
    hide LE, Put, Seal, Sealable, TableBytes, WithBackup, Commit;
    ghost var d := disk[..];
    ghost var v := View(d);
    FittingTable(v.ph);
    assert disk[512..1024] == v.ph && disk[1024..17408] == v.pe;
    ok := UpdateCrc(disk, 512, 1024, crc);
    if ok {
      EditedBackup(crc, d);
      assert disk[512..1024] == disk[..][512..1024];
      GptGeometry.CountsOf512();
      UpdateBackup(disk, GptGeometry.EditLbas(LBA), crc);
    } else {
      CommitRefused(crc, v);
    }
  }

  /** The bytes of the geometry's part k of a disk of 512-byte sectors. */
  function Stretch(d: bytes, k: nat): bytes
    requires DiskSized(|d|) && k < 6
  {
    GptGeometry.CountsOf512();
    var part := GptGeometry.Part(LBA, |d| / LBA, k);
    d[LBA * part.0..LBA * part.1]
  }

  /** The editing path cuts a disk exactly into the six parts of its geometry. */
  lemma ViewFollowsGeometry(d: bytes)
    requires DiskSized(|d|)
    ensures var v := View(d);
      && v.mbr == Stretch(d, 0) && v.ph == Stretch(d, 1) && v.pe == Stretch(d, 2)
      && v.data == Stretch(d, 3) && v.be == Stretch(d, 4) && v.bh == Stretch(d, 5)
  {
    GptGeometry.CountsOf512();
  }

  lemma CommitRefused(crc: Crc, v: Image)
    requires Fits(v.ph) && !Sealable(v.ph)
    ensures Commit(crc, v) == v
  {
  }

  /** A sealed primary followed by the 33-sector backup is the commit. */
  lemma EditedBackup(crc: Crc, d: bytes)
    requires DiskSized(|d|) && Fits(View(d).ph) && Sealable(View(d).ph)
    ensures HeadSize(Seal(crc, View(d).ph, View(d).pe)) <= LBA
    ensures var d1 := Put(d, 512, Seal(crc, View(d).ph, View(d).pe));
      && d1[512..1024] == Seal(crc, View(d).ph, View(d).pe) && TableBytes(d1[512..1024]) == ARRAY_BYTES
      && View(WithBackup(crc, d1, 33)) == Commit(crc, View(d))
  {
    hide LE, Seal, BackupOf, TableBytes, WithBackup, Put;
    var v, n := View(d), |d|;
    var ph := Seal(crc, v.ph, v.pe);
    SealFields(crc, v.ph, v.pe);
    BackupFields(ph, 32);
    FittingTable(ph);
    var d1 := Put(d, 512, ph);
    ViewPutPrimary(d, ph);
    PutSame(d, 512, ph);
    WithBackupIs(crc, d1, 33);
    assert d1[1024..1024 + 512 * 32] == View(d1).pe == v.pe;
    var d2 := Put(d1, n - 16896, v.pe);
    ViewPutBackupArray(d1, v.pe);
    PutSame(d1, n - 16896, v.pe);
    ViewPutBackupHeader(d2, Seal(crc, BackupOf(ph, 32), v.pe));
  }
}
