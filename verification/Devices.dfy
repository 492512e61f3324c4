/** The facts about a block device that the partitioning code consults (src/growlight.h:117-246). */
module Devices {
  import opened Arithmetic
  import opened Wrappers

  /** LBA_SIZE, the sector size both table drivers work in. */
  const LBA: nat := 512

  datatype Layout = LayoutNone | LayoutMdadm | LayoutDm | LayoutPartition | LayoutZpool

  datatype Device = Device(
    layout: Layout,
    pttable: Option<string>,
    size: nat,          // bytes
    logsec: nat,        // logical sector size in bytes
    physsec: nat,       // physical sector size in bytes
    firstUsable: nat,   // cached for whole disks only
    lastUsable: nat)

  /** Sector sizes as the kernel reports them: the physical sector holds whole logical ones. */
  predicate Sane(d: Device) {
    d.logsec > 0 && d.physsec >= d.logsec
  }

  function FirstUsableSector(d: Device): nat
    requires Sane(d)
  {
    if d.layout.LayoutNone? then d.firstUsable else d.physsec / d.logsec
  }

  function LastUsableSector(d: Device): nat
    requires Sane(d)
  {
    if d.layout.LayoutNone? then d.lastUsable else Pred64(d.size / d.logsec)
  }

  /** Logical sectors to a physical one. */
  function Grain(d: Device): (a: nat)
    requires Sane(d)
    ensures a > 0
  {
    assert d.physsec / d.logsec >= 1 by { QuotientPositive(d.physsec, d.logsec); }
    d.physsec / d.logsec
  }

  /** The first sector rounded up to a physical sector, as add_gpt and add_msdos do. */
  function AlignUp(f: nat, a: nat): (r: nat)
    requires a > 0
  {
    if f % a != 0 then f + (a - f % a) else f
  }

  /** Rounding yields the least multiple of the grain that is not below the request. */
  lemma AlignUpIsLeast(f: nat, a: nat)
    requires a > 0
    ensures AlignUp(f, a) % a == 0
    ensures f <= AlignUp(f, a) < f + a
    ensures forall m: nat :: m % a == 0 && f <= m ==> AlignUp(f, a) <= m
  {
    var r := AlignUp(f, a);
    var q := f / a;
    assert f == q * a + f % a;
    var k := if f % a != 0 then q + 1 else q;
    assert r == k * a by {
      assert (q + 1) * a == q * a + a;
    }
    MultipleMod(k, a);
    forall m: nat | m % a == 0 && f <= m
      ensures r <= m
    {
      var j := m / a;
      assert m == j * a + m % a;
      if m < r {
        MultipleBelow(j, k, a);
        MultipleBelow(q, j + 1, a);
        assert false;
      }
    }
  }

  /** Logical sector s starts a physical one. */
  predicate OnPhysical(d: Device, s: nat)
    requires Sane(d)
  {
    s * d.logsec % d.physsec == 0
  }

  /** So the rounded start is the first sector from f on that starts a physical sector. */
  lemma AlignUpIsPhysical(d: Device, f: nat)
    requires Sane(d) && d.physsec % d.logsec == 0
    ensures var r := AlignUp(f, Grain(d));
      f <= r && OnPhysical(d, r) && forall s: nat :: f <= s && OnPhysical(d, s) ==> r <= s
  {
    hide AlignUp, OnPhysical, Grain;
    AlignUpIsLeast(f, Grain(d));
    forall s: nat
      ensures OnPhysical(d, s) <==> s % Grain(d) == 0
    {
      PhysicalMultiple(d, s);
    }
  }

  lemma PhysicalMultiple(d: Device, s: nat)
    requires Sane(d) && d.physsec % d.logsec == 0
    ensures OnPhysical(d, s) <==> s % Grain(d) == 0
  {
    assert d.physsec == Grain(d) * d.logsec;
    OnBoundary(s, d.logsec, Grain(d));
  }

  /** The range test that add_partition and both table drivers apply. */
  predicate BadRange(d: Device, f: nat, l: nat)
    requires Sane(d)
  {
    l < f || l > LastUsableSector(d) || f < FirstUsableSector(d)
  }
}
