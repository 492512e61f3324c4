/** Where a GPT's parts lie, for every sector size: the arithmetic of write_gpt, initialize_gpt and unmap_gpt. */
module GptGeometry {
  const ARRAY_BYTES: nat := 16384

  /** Sectors of one table copy as write_gpt counts them. */
  function CreateLbas(s: nat): nat
    requires s > 0
  {
    var slack := s - ARRAY_BYTES % s;
    1 + (if slack != 0 then 1 else 0) + ARRAY_BYTES / s
  }

  /** Sectors of one table copy as map_gpt and unmap_gpt count them. */
  function EditLbas(s: nat): nat
    requires s > 0
  {
    1 + ARRAY_BYTES / s
  }

  function CeilDiv(n: nat, s: nat): nat
    requires s > 0
  {
    if n % s == 0 then n / s else n / s + 1
  }

  function FirstUsable(s: nat): nat
    requires s > 0
  {
    CreateLbas(s)
  }

  /** gh->last_usable for a disk of lbas sectors, on signed integers. */
  function LastUsable(s: nat, lbas: nat): int
    requires s > 0
  {
    (lbas - 1) - (FirstUsable(s) - 1)
  }

  /** Where update_backup puts the backup array, given one of the two counts. */
  function BackupArray(lbas: nat, count: nat): int {
    (lbas - 1) - (count - 1)
  }

  /** The creation count is header and array rounded up exactly when rounding is needed; else it is one too many. */
  lemma CreationCount(s: nat)
    requires s > 0
    ensures CreateLbas(s) == 1 + CeilDiv(ARRAY_BYTES, s) <==> ARRAY_BYTES % s != 0
    ensures ARRAY_BYTES % s == 0 ==> CreateLbas(s) == EditLbas(s) + 1 && EditLbas(s) == 1 + CeilDiv(ARRAY_BYTES, s)
  {
  }

  /** On 512-byte sectors creation counts 34 sectors to a copy and edits count 33. */
  lemma CountsOf512()
    ensures CreateLbas(512) == 34 && EditLbas(512) == 33
  {
  }

  /**
   The six parts of an edited disk in order, as [from, to): boot sector, header, array, usable range,
   backup array, backup header.
   */
  function Part(s: nat, lbas: nat, k: nat): (r: (int, int))
    requires s > 0 && k < 6
  {
    var n := ARRAY_BYTES / s;
    match k
    case 0 => (0, 1)
    case 1 => (1, 2)
    case 2 => (2, 2 + n)
    case 3 => (FirstUsable(s), LastUsable(s, lbas) + 1)
    case 4 => (BackupArray(lbas, EditLbas(s)), BackupArray(lbas, EditLbas(s)) + n)
    case _ => (lbas - 1, lbas)
  }

  predicate Within(x: int, r: (int, int)) {
    r.0 <= x < r.1
  }

  /**
   For every sector size dividing 16 KiB and every disk that holds two copies, the edited layout
   tiles the disk: each sector lies in exactly one part, and each array has exactly 16 KiB.
   */
  lemma EditedLayoutTiles(s: nat, lbas: nat, x: int)
    requires s > 0 && ARRAY_BYTES % s == 0 && lbas >= 1 + 2 * EditLbas(s)
    requires 0 <= x < lbas
    ensures exists k: nat :: k < 6 && Within(x, Part(s, lbas, k))
    ensures forall j: nat, k: nat ::
      j < 6 && k < 6 && Within(x, Part(s, lbas, j)) && Within(x, Part(s, lbas, k)) ==> j == k
    ensures forall k: nat :: (k == 2 || k == 4) ==> (Part(s, lbas, k).1 - Part(s, lbas, k).0) * s == ARRAY_BYTES
  {
    var n := ARRAY_BYTES / s;
    assert n * s == ARRAY_BYTES;
    assert Part(s, lbas, 3) == (n + 2, lbas - 1 - n);
    assert Part(s, lbas, 4) == (lbas - 1 - n, lbas - 1);
    var k: nat := if x < 1 then 0 else if x < 2 then 1 else if x < 2 + n then 2
                  else if x < lbas - 1 - n then 3 else if x < lbas - 1 then 4 else 5;
    assert Within(x, Part(s, lbas, k));
  }

  /** Creation puts its backup array one sector lower, on the last usable sector; edits put it one past that. */
  lemma BackupArrayPlaces(s: nat, lbas: nat)
    requires s > 0 && ARRAY_BYTES % s == 0
    ensures BackupArray(lbas, CreateLbas(s)) == LastUsable(s, lbas)
    ensures BackupArray(lbas, EditLbas(s)) == LastUsable(s, lbas) + 1
    ensures BackupArray(lbas, EditLbas(s)) + ARRAY_BYTES / s == lbas - 1
  {
  }
}
