/** The fstab printer of src/target.c, and what the mount table parser makes of its output. */
module Fstab {
  import opened CTypes
  import opened Mounts
  import opened Strings
  import opened Wrappers

  // ---- dump_device_targets and dump_targets ----

  /** What the printer knows of a block device. */
  datatype FsDevice = FsDevice(name: string, mnttype: Option<string>, mnts: seq<string>, ops: seq<string>, swap: bool)

  /** A line of the printed table. */
  datatype Item =
    | Entry(m: Mount, root: bool)
    | Swap(name: string, fs: string)
    | Removable(name: string)
    | Proc

  /** The dump and pass fields of a mount line. */
  function Ending(root: bool): string {
    if root then " 0 1\n" else " 0 2\n"
  }

  function ItemText(i: Item): string {
    match i
    case Entry(m, root) => m.dev + " " + m.mnt + " " + m.fs + " " + m.ops + Ending(root)
    case Swap(name, fs) => "/dev/" + name + "\tnone\t\t" + fs + "\n"
    case Removable(name) =>
      "/dev/" + name + "\t" + "/media/cdrom" + "\t" + "auto" + "\t" + "noauto, user" + "\t0\t0\n"
    case Proc => "proc\t\t/proc\t\tproc\tdefaults\t0\t0\n"
  }

  function Text(items: seq<Item>): string {
    if items == [] then "" else ItemText(items[0]) + Text(items[1..])
  }

  lemma {:induction false} TextConcat(a: seq<Item>, b: seq<Item>)
    ensures Text(a + b) == Text(a) + Text(b)
  {
    hide ItemText;
    if a == [] {
      assert a + b == b;
    } else {
      assert (a + b)[1..] == a[1..] + b;
      TextConcat(a[1..], b);
    }
  }

  /** Where a mount will be in the target's own view; the target itself becomes the root. */
  function Shown(target: string, mnt: string): string
    requires target <= mnt
  {
    if mnt == target then "/" else mnt[|target|..]
  }

  /** The item for mount z. */
  function EntryFor(d: FsDevice, fs: string, target: string, z: nat): Item
    requires z < |d.mnts| == |d.ops| && target <= d.mnts[z]
  {
    Entry(Mount("/dev/" + d.name, Shown(target, d.mnts[z]), fs, d.ops[z]), d.mnts[z] == target)
  }

  /** The mounts under the target, by string prefix. */
  function Entries(d: FsDevice, fs: string, target: string, z: nat): seq<Item>
    requires z <= |d.mnts| == |d.ops|
  {
    if z == 0 then []
    else
      Entries(d, fs, target, z - 1) + if target <= d.mnts[z - 1] then [EntryFor(d, fs, target, z - 1)] else []
  }

  function DeviceItems(d: FsDevice, target: string): seq<Item>
    requires |d.mnts| == |d.ops|
  {
    if d.mnttype.None? || d.mnttype.value == "zfs" then []
    else
      Entries(d, d.mnttype.value, target, |d.mnts|)
      + if d.swap then [Swap(d.name, d.mnttype.value)] else []
  }

  /** dump_device_targets: s with the device's lines appended. */
  method DumpDeviceTargets(s: string, d: FsDevice, target: string) returns (r: string)
    requires |d.mnts| == |d.ops|
    ensures r == s + Text(DeviceItems(d, target))
  {
    hide Text, ItemText, Entries;
    TextOfNone();
    assert s + "" == s;
    r := s;
    if d.mnttype.None? || d.mnttype.value == "zfs" {
      return;
    }
    var fs := d.mnttype.value;
    var z := 0;
    EntriesOfNone(d, fs, target);
    while z < |d.mnts|
      invariant z <= |d.mnts|
      invariant r == s + Text(Entries(d, fs, target, z))
    {
      EntriesStep(d, fs, target, z);
      if target <= d.mnts[z] {
        var mnt, dump;
        if d.mnts[z] == target {
          mnt, dump := "/", "1";
        } else {
          mnt, dump := d.mnts[z][|target|..], "2";
        }
        var line := "/dev/" + d.name + " " + mnt + " " + fs + " " + d.ops[z] + " 0 " + dump + "\n";
        EntryText(d, fs, target, z, line);
        TextSnoc(Entries(d, fs, target, z), EntryFor(d, fs, target, z));
        r := r + line;
      }
      z := z + 1;
    }
    assert Entries(d, fs, target, z) + [] == Entries(d, fs, target, z);
    if d.swap {
      SwapText(d.name, fs);
      TextSnoc(Entries(d, fs, target, z), Swap(d.name, fs));
      r := r + ("/dev/" + d.name + "\tnone\t\t" + fs + "\n");
    }
  }

  lemma EntriesOfNone(d: FsDevice, fs: string, target: string)
    requires |d.mnts| == |d.ops|
    ensures Entries(d, fs, target, 0) == []
  {
  }

  lemma EntriesStep(d: FsDevice, fs: string, target: string, z: nat)
    requires z < |d.mnts| == |d.ops|
    ensures Entries(d, fs, target, z + 1)
      == if target <= d.mnts[z] then Entries(d, fs, target, z) + [EntryFor(d, fs, target, z)]
         else Entries(d, fs, target, z)
  {
  }

  lemma EntryText(d: FsDevice, fs: string, target: string, z: nat, line: string)
    requires z < |d.mnts| == |d.ops| && target <= d.mnts[z]
    requires line == "/dev/" + d.name + " " + Shown(target, d.mnts[z]) + " " + fs + " " + d.ops[z]
      + " 0 " + (if d.mnts[z] == target then "1" else "2") + "\n"
    ensures ItemText(EntryFor(d, fs, target, z)) == line
  {
  }

  /** The root of the target is checked first, every other mount after it. */
  lemma PassFields(d: FsDevice, fs: string, target: string, z: nat)
    requires z < |d.mnts| == |d.ops| && target <= d.mnts[z]
    ensures var line := ItemText(EntryFor(d, fs, target, z));
      |line| >= 5 && line[|line| - 5..] == if d.mnts[z] == target then " 0 1\n" else " 0 2\n"
  {
    var line := ItemText(EntryFor(d, fs, target, z));
    assert line[|line| - 5..] == Ending(d.mnts[z] == target);
  }

  lemma SwapText(name: string, fs: string)
    ensures ItemText(Swap(name, fs)) == "/dev/" + name + "\tnone\t\t" + fs + "\n"
  {
  }

  lemma TextSnoc(items: seq<Item>, i: Item)
    ensures Text(items + [i]) == Text(items) + ItemText(i)
  {
    TextConcat(items, [i]);
    assert [i][1..] == [];
    assert ItemText(i) + "" == ItemText(i);
  }

  /** A whole disk with its partitions. */
  datatype Block = Block(disk: FsDevice, removable: bool, parts: seq<FsDevice>)

  predicate ListsMatch(b: Block) {
    |b.disk.mnts| == |b.disk.ops| && forall i :: 0 <= i < |b.parts| ==> |b.parts[i].mnts| == |b.parts[i].ops|
  }

  function PartItems(b: Block, target: string, n: nat): seq<Item>
    requires n <= |b.parts| && ListsMatch(b)
  {
    if n == 0 then [] else PartItems(b, target, n - 1) + DeviceItems(b.parts[n - 1], target)
  }

  function BlockItems(b: Block, target: string): seq<Item>
    requires ListsMatch(b)
  {
    (if b.removable then [Removable(b.disk.name)] else DeviceItems(b.disk, target)) + PartItems(b, target, |b.parts|)
  }

  predicate AllMatch(bs: seq<Block>) {
    forall i :: 0 <= i < |bs| ==> ListsMatch(bs[i])
  }

  function BlocksItems(bs: seq<Block>, target: string, n: nat): seq<Item>
    requires n <= |bs| && AllMatch(bs)
  {
    if n == 0 then [] else BlocksItems(bs, target, n - 1) + BlockItems(bs[n - 1], target)
  }

  /** The lines of the first n controllers' block devices. */
  function TableItems(cs: seq<seq<Block>>, target: string, n: nat): seq<Item>
    requires n <= |cs| && forall i :: 0 <= i < |cs| ==> AllMatch(cs[i])
  {
    if n == 0 then [] else TableItems(cs, target, n - 1) + BlocksItems(cs[n - 1], target, |cs[n - 1]|)
  }

  /** What dump_targets prints for a mounted target. */
  function TableText(cs: seq<seq<Block>>, target: string): string
    requires forall i :: 0 <= i < |cs| ==> AllMatch(cs[i])
  {
    Text(TableItems(cs, target, |cs|) + [Proc])
  }

  /** One turn of dump_targets: a disk, as removable medium or by its mounts, and then its partitions. */
  method DumpBlock(s: string, b: Block, target: string) returns (out: string)
    requires ListsMatch(b)
    ensures out == s + Text(BlockItems(b, target))
  {
    hide DeviceItems, Text, ItemText;
    ghost var first := if b.removable then [Removable(b.disk.name)] else DeviceItems(b.disk, target);
    if b.removable {
      RemovableText(b.disk.name);
      out := s + ("/dev/" + b.disk.name + "\t" + "/media/cdrom" + "\t" + "auto" + "\t" + "noauto, user" + "\t0\t0\n");
    } else {
      out := DumpDeviceTargets(s, b.disk, target);
    }
    var p := 0;
    assert first + PartItems(b, target, p) == first;
    while p < |b.parts|
      invariant p <= |b.parts| && out == s + Text(first + PartItems(b, target, p))
    {
      ghost var done, more := first + PartItems(b, target, p), DeviceItems(b.parts[p], target);
      assert first + PartItems(b, target, p + 1) == done + more;
      TextConcat(done, more);
      Associate(s, Text(done), Text(more));
      out := DumpDeviceTargets(out, b.parts[p], target);
      p := p + 1;
    }
  }

  /** The block devices of one controller. */
  method DumpController(s: string, bs: seq<Block>, target: string) returns (out: string)
    requires AllMatch(bs)
    ensures out == s + Text(BlocksItems(bs, target, |bs|))
  {
    hide BlockItems, Text;
    TextOfNone();
    assert s + "" == s;
    out := s;
    var n := 0;
    while n < |bs|
      invariant n <= |bs| && out == s + Text(BlocksItems(bs, target, n))
    {
      ghost var done, more := BlocksItems(bs, target, n), BlockItems(bs[n], target);
      TextConcat(done, more);
      Associate(s, Text(done), Text(more));
      out := DumpBlock(out, bs[n], target);
      n := n + 1;
    }
  }

  /** dump_targets over all controllers; without a mounted target it prints nothing. */
  method DumpTargets(cs: seq<seq<Block>>, mounted: bool, target: string) returns (out: string)
    requires forall i :: 0 <= i < |cs| ==> AllMatch(cs[i])
    ensures out == if mounted then TableText(cs, target) else ""
  {
    hide AllMatch, BlocksItems, Text, ItemText;
    TextOfNone();
    out := "";
    if !mounted {
      return;
    }
    var n := 0;
    while n < |cs|
      invariant n <= |cs| && out == Text(TableItems(cs, target, n))
    {
      TextConcat(TableItems(cs, target, n), BlocksItems(cs[n], target, |cs[n]|));
      out := DumpController(out, cs[n], target);
      n := n + 1;
    }
    TextSnoc(TableItems(cs, target, n), Proc);
    ProcText();
    out := out + "proc\t\t/proc\t\tproc\tdefaults\t0\t0\n";
  }

  lemma TextOfNone()
    ensures Text([]) == ""
  {
  }

  lemma RemovableText(name: string)
    ensures Text([Removable(name)])
      == "/dev/" + name + "\t" + "/media/cdrom" + "\t" + "auto" + "\t" + "noauto, user" + "\t0\t0\n"
  {
  }

  lemma ProcText()
    ensures ItemText(Proc) == "proc\t\t/proc\t\tproc\tdefaults\t0\t0\n"
  {
  }

  // ---- The round trip ----

  /** What the parser makes of an item: nothing where two tabs leave a field empty. */
  function ReadBack(i: Item): Option<Mount> {
    match i
    case Entry(m, _) => Some(m)
    case Removable(name) => Some(Mount("/dev/" + name, "/media/cdrom", "auto", "noauto,"))
    case Swap(_, _) => None
    case Proc => None
  }

  predicate CleanItem(i: Item) {
    match i
    case Entry(m, _) => Clean(m)
    case Removable(name) => AllGraph(name)
    case Swap(name, _) => AllGraph(name)
    case Proc => true
  }

  predicate CleanItems(items: seq<Item>) {
    forall i :: 0 <= i < |items| ==> CleanItem(items[i])
  }

  /** A printed mount line reads back as itself exactly when its four fields are words. */
  lemma EntryReadsBack(m: Mount, root: bool)
    ensures IsLine(ItemText(Entry(m, root)), m) <==> Clean(m)
  {
    hide IsLine, IsTail, Clean, Ending;
    if IsLine(ItemText(Entry(m, root)), m) {
      LinesAreClean(ItemText(Entry(m, root)), m);
    }
    if Clean(m) {
      EndingIsTail(root);
      InOrder(m.dev, m.mnt, m.fs, m.ops, Ending(root));
      Assembled(ItemText(Entry(m, root)), m, ' ', ' ', ' ', Ending(root));
    }
  }

  lemma EndingIsTail(root: bool)
    ensures IsTail(Ending(root))
  {
  }

  lemma LinesAreClean(s: string, m: Mount)
    requires IsLine(s, m)
    ensures Clean(m)
  {
  }

  lemma InOrder(dev: string, mnt: string, fs: string, ops: string, t: string)
    ensures dev + " " + mnt + " " + fs + " " + ops + t == dev + (" " + (mnt + (" " + (fs + (" " + (ops + t))))))
  {
  }

  lemma Regroup(dev: string, u: string, v: string, fs: string, ops: string, t: string)
    ensures dev + " " + (u + " " + v) + " " + fs + " " + ops + t
      == dev + (" " + (u + (" " + (v + (" " + (fs + (" " + ops + t)))))))
  {
  }

  /** A mount point holding a space is read back, but as a shorter path and with its rest as the type. */
  lemma SpaceInPathMisread(m: Mount, u: string, v: string, root: bool)
    requires Clean(m.(mnt := u)) && Word(v) && m.mnt == u + " " + v
    ensures IsLine(ItemText(Entry(m, root)), Mount(m.dev, u, v, m.fs))
  {
    hide IsLine, IsTail, Clean, Word, Ending;
    var t, n := " " + m.ops + Ending(root), Mount(m.dev, u, v, m.fs);
    CleanFields(m.(mnt := u));
    LongTail(m.ops, root);
    NowClean(n);
    Regroup(m.dev, u, v, m.fs, m.ops, Ending(root));
    Assembled(ItemText(Entry(m, root)), n, ' ', ' ', ' ', t);
  }

  lemma CleanFields(m: Mount)
    requires Clean(m)
    ensures Word(m.dev) && Word(m.mnt) && Word(m.fs) && Word(m.ops)
  {
  }

  lemma NowClean(m: Mount)
    requires Word(m.dev) && Word(m.mnt) && Word(m.fs) && Word(m.ops)
    ensures Clean(m)
  {
  }

  lemma LongTail(ops: string, root: bool)
    requires Word(ops)
    ensures IsTail(" " + ops + Ending(root))
  {
    assert forall i :: 0 <= i < |ops| ==> IsGraph(ops[i]);
  }

  lemma RemovableReadsBack(name: string)
    requires AllGraph(name)
    ensures IsLine(ItemText(Removable(name)), ReadBack(Removable(name)).value)
  {
    hide IsLine, IsTail, Clean;
    var dev, t := "/dev/" + name, " user\t0\t0\n";
    var m := Mount(dev, "/media/cdrom", "auto", "noauto,");
    RemovableFields(name);
    assert "noauto, user" + "\t0\t0\n" == "noauto," + t;
    Tabbed(dev, "/media/cdrom", "auto", "noauto, user", "\t", "\t0\t0\n");
    Assembled(ItemText(Removable(name)), m, '\t', '\t', '\t', t);
  }

  lemma Tabbed(dev: string, mnt: string, fs: string, ops: string, tab: string, t: string)
    ensures dev + tab + mnt + tab + fs + tab + ops + t == dev + (tab + (mnt + (tab + (fs + (tab + (ops + t))))))
  {
  }

  lemma RemovableFields(name: string)
    requires AllGraph(name)
    ensures Clean(Mount("/dev/" + name, "/media/cdrom", "auto", "noauto,")) && IsTail(" user\t0\t0\n")
  {
  }

  lemma SwapSplit(dev: string, none: string, tab: string, fs: string, nl: string, rest: string)
    ensures dev + (tab + none + tab + tab) + fs + nl + rest
      == dev + (tab + (none + (tab + (tab + fs + nl + rest))))
  {
  }

  lemma SwapStops(name: string, fs: string, rest: string)
    requires AllGraph(name)
    ensures ItemText(Swap(name, fs)) + rest != [] && NoLine(ItemText(Swap(name, fs)) + rest)
  {
    hide NoLine, Past, Leads, NoField, ItemText;
    var s := ItemText(Swap(name, fs)) + rest;
    var dev, s2 := "/dev/" + name, "\t" + fs + "\n" + rest;
    var s1 := "none" + ("\t" + s2);
    assert "\tnone\t\t" == "\t" + "none" + "\t" + "\t";
    SwapText(name, fs);
    SwapSplit(dev, "none", "\t", fs, "\n", rest);
    LeadsConcat(dev, '\t', s1, s);
    LeadsConcat("none", '\t', s2, s1);
    NoFieldIn(s2, 0);
    Blocked3(s, dev, "none");
  }

  lemma ProcStops(rest: string)
    ensures ItemText(Proc) + rest != [] && NoLine(ItemText(Proc) + rest)
  {
    hide NoLine, Past, Leads, NoField, ItemText;
    ProcText();
    var s := ItemText(Proc) + rest;
    var tail := "\t/proc\t\tproc\tdefaults\t0\t0\n";
    assert "proc\t\t/proc\t\tproc\tdefaults\t0\t0\n" == "proc" + ("\t" + tail);
    AfterField("proc", tail, rest);
  }

  lemma AfterField(w: string, tail: string, rest: string)
    requires Word(w) && tail != [] && !IsGraph(tail[0])
    ensures NoLine(w + ("\t" + tail) + rest)
  {
    hide NoLine, Past, Leads, NoField;
    var s, s1 := w + ("\t" + tail) + rest, tail + rest;
    assert s == w + ("\t" + s1);
    LeadsConcat(w, '\t', s1, s);
    NoFieldIn(s1, 0);
    Blocked2(s, w);
  }

  /** A swap line and the proc line stop the parser: their doubled tabs leave an empty field. */
  lemma UnreadableItem(i: Item, rest: string)
    requires CleanItem(i) && ReadBack(i).None?
    ensures ItemText(i) + rest != [] && NoLine(ItemText(i) + rest)
  {
    hide ItemText, NoLine;
    match i {
      case Swap(name, fs) => SwapStops(name, fs, rest);
      case Proc => ProcStops(rest);
    }
  }

  lemma ReadableItem(i: Item)
    requires CleanItem(i) && ReadBack(i).Some?
    ensures IsLine(ItemText(i), ReadBack(i).value)
  {
    hide ItemText, IsLine;
    match i {
      case Entry(m, root) => EntryReadsBack(m, root);
      case Removable(name) => RemovableReadsBack(name);
    }
  }

  predicate AllRead(items: seq<Item>) {
    forall i :: 0 <= i < |items| ==> ReadBack(items[i]).Some?
  }

  /** The mounts of the items before the first unreadable one. */
  function MountsOf(items: seq<Item>): seq<Mount> {
    if items == [] || ReadBack(items[0]).None? then [] else [ReadBack(items[0]).value] + MountsOf(items[1..])
  }

  /** Their lines. */
  function LinesOf(items: seq<Item>): seq<string> {
    if items == [] || ReadBack(items[0]).None? then [] else [ItemText(items[0])] + LinesOf(items[1..])
  }

  lemma {:induction false} MountsOfAll(items: seq<Item>)
    requires AllRead(items)
    ensures |MountsOf(items)| == |items|
    ensures forall i :: 0 <= i < |items| ==> MountsOf(items)[i] == ReadBack(items[i]).value
  {
    hide ReadBack;
    if items != [] {
      MountsOfAll(items[1..]);
    }
  }

  lemma {:induction false} MountsOfSnoc(items: seq<Item>, x: Item)
    requires ReadBack(x).None?
    ensures MountsOf(items + [x]) == MountsOf(items) && !AllRead(items + [x])
  {
    hide ReadBack;
    assert (items + [x])[|items|] == x;
    if items != [] {
      assert (items + [x])[1..] == items[1..] + [x];
      MountsOfSnoc(items[1..], x);
    }
  }

  /** A printed table of clean items reads back as its mounts, in order, up to the first unreadable line. */
  lemma {:induction false} TextReadsBack(items: seq<Item>)
    requires CleanItems(items)
    ensures Reads(Text(items), LinesOf(items), MountsOf(items), AllRead(items))
  {
    hide IsLine, ItemText, NoLine, Reads, ReadBack, CleanItem;
    if items == [] {
      ReadsNothing();
    } else {
      var i, rest := items[0], items[1..];
      if ReadBack(i).None? {
        UnreadableItem(i, Text(rest));
        ReadsStop(Text(items));
      } else {
        TextReadsBack(rest);
        ReadableItem(i);
        ReadsCons(ItemText(i), ReadBack(i).value, Text(rest), LinesOf(rest), MountsOf(rest), AllRead(rest));
        assert items == [i] + rest;
      }
    }
  }

  /**
   Whatever is read from printed clean items is what was printed: all of it when no line is a swap or
   proc line, and otherwise the mounts before the first such line, with an error.
   */
  lemma PrintedIsRead(items: seq<Item>, lines: seq<string>, seen: seq<Mount>, ok: bool)
    requires CleanItems(items) && Reads(Text(items), lines, seen, ok)
    ensures seen == MountsOf(items) && (ok <==> AllRead(items))
  {
    hide Reads;
    TextReadsBack(items);
    ReadsUnique(Text(items), lines, seen, ok, LinesOf(items), MountsOf(items), AllRead(items));
  }

  predicate CleanDevice(d: FsDevice) {
    && AllGraph(d.name) && (d.mnttype.Some? ==> Word(d.mnttype.value)) && |d.mnts| == |d.ops|
    && forall z :: 0 <= z < |d.mnts| ==> AllGraph(d.mnts[z]) && Word(d.ops[z])
  }

  lemma {:induction false} EntriesClean(d: FsDevice, fs: string, target: string, z: nat)
    requires CleanDevice(d) && Word(fs) && z <= |d.mnts|
    ensures CleanItems(Entries(d, fs, target, z)) && AllRead(Entries(d, fs, target, z))
  {
    if z > 0 {
      EntriesClean(d, fs, target, z - 1);
    }
  }

  /**
   One clean device's lines come back as its mounts under the target, and without error exactly when
   it printed no swap line.
   */
  lemma DeviceReadsBack(d: FsDevice, target: string, lines: seq<string>, seen: seq<Mount>, ok: bool)
    requires CleanDevice(d) && d.mnttype.Some? && d.mnttype.value != "zfs"
    requires Reads(Text(DeviceItems(d, target)), lines, seen, ok)
    ensures var es := Entries(d, d.mnttype.value, target, |d.mnts|);
      |seen| == |es| && forall i :: 0 <= i < |es| ==> es[i].Entry? && seen[i] == es[i].m
    ensures ok <==> !d.swap
  {
    hide Reads, CleanItem, Entries;
    var es := Entries(d, d.mnttype.value, target, |d.mnts|);
    EntriesAre(d, d.mnttype.value, target, |d.mnts|);
    EntriesClean(d, d.mnttype.value, target, |d.mnts|);
    assert es + [] == es;
    SwapClean(d.name, d.mnttype.value);
    PrintedIsRead(DeviceItems(d, target), lines, seen, ok);
    MountsOfAll(es);
    MountsOfSnoc(es, Swap(d.name, d.mnttype.value));
  }

  lemma SwapClean(name: string, fs: string)
    requires AllGraph(name)
    ensures CleanItem(Swap(name, fs))
  {
  }

  lemma {:induction false} EntriesAre(d: FsDevice, fs: string, target: string, z: nat)
    requires z <= |d.mnts| == |d.ops|
    ensures forall i :: 0 <= i < |Entries(d, fs, target, z)| ==> Entries(d, fs, target, z)[i].Entry?
  {
    if z > 0 {
      EntriesAre(d, fs, target, z - 1);
    }
  }

  lemma DeviceItemsClean(d: FsDevice, target: string)
    requires CleanDevice(d)
    ensures CleanItems(DeviceItems(d, target))
  {
    hide CleanItem, Entries;
    if d.mnttype.Some? && d.mnttype.value != "zfs" {
      EntriesClean(d, d.mnttype.value, target, |d.mnts|);
      SwapClean(d.name, d.mnttype.value);
    }
  }

  predicate CleanBlock(b: Block) {
    CleanDevice(b.disk) && forall i :: 0 <= i < |b.parts| ==> CleanDevice(b.parts[i])
  }

  predicate CleanBlocks(bs: seq<Block>) {
    forall i :: 0 <= i < |bs| ==> CleanBlock(bs[i])
  }

  lemma CleanMatch(bs: seq<Block>)
    requires CleanBlocks(bs)
    ensures AllMatch(bs)
  {
  }

  lemma {:induction false} PartItemsClean(b: Block, target: string, n: nat)
    requires CleanBlock(b) && n <= |b.parts|
    ensures CleanItems(PartItems(b, target, n))
  {
    hide CleanItem, DeviceItems;
    if n > 0 {
      PartItemsClean(b, target, n - 1);
      DeviceItemsClean(b.parts[n - 1], target);
    }
  }

  lemma BlockItemsClean(b: Block, target: string)
    requires CleanBlock(b)
    ensures CleanItems(BlockItems(b, target))
  {
    hide DeviceItems, PartItems;
    PartItemsClean(b, target, |b.parts|);
    if !b.removable {
      DeviceItemsClean(b.disk, target);
    }
  }

  lemma {:induction false} BlocksItemsClean(bs: seq<Block>, target: string, n: nat)
    requires CleanBlocks(bs) && AllMatch(bs) && n <= |bs|
    ensures CleanItems(BlocksItems(bs, target, n))
  {
    hide CleanItem, BlockItems, CleanBlock;
    if n > 0 {
      BlocksItemsClean(bs, target, n - 1);
      BlockItemsClean(bs[n - 1], target);
    }
  }

  predicate CleanTable(cs: seq<seq<Block>>) {
    forall i :: 0 <= i < |cs| ==> CleanBlocks(cs[i])
  }

  lemma CleanTableMatches(cs: seq<seq<Block>>)
    requires CleanTable(cs)
    ensures forall i :: 0 <= i < |cs| ==> AllMatch(cs[i])
  {
    forall i | 0 <= i < |cs|
      ensures AllMatch(cs[i])
    {
      CleanMatch(cs[i]);
    }
  }

  lemma {:induction false} TableItemsClean(cs: seq<seq<Block>>, target: string, n: nat)
    requires CleanTable(cs) && n <= |cs|
    ensures forall i :: 0 <= i < |cs| ==> AllMatch(cs[i])
    ensures CleanItems(TableItems(cs, target, n))
  {
    hide CleanItem, BlocksItems, CleanBlocks, AllMatch;
    CleanTableMatches(cs);
    if n > 0 {
      TableItemsClean(cs, target, n - 1);
      BlocksItemsClean(cs[n - 1], target, |cs[n - 1]|);
    }
  }

  /**
   So the parser never gets through what dump_targets prints for clean devices: it reads the mounts up
   to the first swap line, all of them if there is none, and then refuses that line or the proc line.
   */
  lemma DumpIsNeverReadWhole(cs: seq<seq<Block>>, target: string, lines: seq<string>, seen: seq<Mount>, ok: bool)
    requires CleanTable(cs) && forall i :: 0 <= i < |cs| ==> AllMatch(cs[i])
    requires Reads(TableText(cs, target), lines, seen, ok)
    ensures !ok && seen == MountsOf(TableItems(cs, target, |cs|))
  {
    hide Reads, TableItems, CleanItem;
    var items := TableItems(cs, target, |cs|);
    TableItemsClean(cs, target, |cs|);
    ProcClean();
    PrintedIsRead(items + [Proc], lines, seen, ok);
    MountsOfSnoc(items, Proc);
  }

  lemma ProcClean()
    ensures CleanItem(Proc)
  {
  }

  // ---- The table as a whole ----

  /** A device of the machine, and whether it is printed as removable medium. */
  datatype Listed = Listed(dev: FsDevice, removable: bool)

  /** The first n partitions of a disk. */
  function OfParts(b: Block, n: nat): seq<Listed>
    requires n <= |b.parts|
  {
    if n == 0 then [] else OfParts(b, n - 1) + [Listed(b.parts[n - 1], false)]
  }

  /** A disk and then its partitions. */
  function OfBlock(b: Block): seq<Listed> {
    [Listed(b.disk, b.removable)] + OfParts(b, |b.parts|)
  }

  /** All block devices of a machine in order, controller by controller. */
  function Blocks(cs: seq<seq<Block>>): seq<Block> {
    if cs == [] then [] else Blocks(cs[..|cs| - 1]) + cs[|cs| - 1]
  }

  /** All devices of these blocks in order. */
  function AllDevices(bs: seq<Block>): seq<Listed> {
    if bs == [] then [] else AllDevices(bs[..|bs| - 1]) + OfBlock(bs[|bs| - 1])
  }

  /** What mount z of a device is in the target's view, if it is there. */
  function MountAt(d: FsDevice, target: string, z: nat): seq<Mount>
    requires z < |d.mnts| == |d.ops| && d.mnttype.Some?
  {
    if target <= d.mnts[z] then [Mount("/dev/" + d.name, Shown(target, d.mnts[z]), d.mnttype.value, d.ops[z])] else []
  }

  function MountsTo(d: FsDevice, target: string, z: nat): seq<Mount>
    requires z <= |d.mnts| == |d.ops| && d.mnttype.Some?
  {
    if z == 0 then [] else MountsTo(d, target, z - 1) + MountAt(d, target, z - 1)
  }

  /** A device's mounts under the target; a removable disk's one mount. */
  function MountsUnder(l: Listed, target: string): seq<Mount>
    requires |l.dev.mnts| == |l.dev.ops|
  {
    if l.removable then [Mount("/dev/" + l.dev.name, "/media/cdrom", "auto", "noauto,")]
    else if l.dev.mnttype.None? || l.dev.mnttype.value == "zfs" then []
    else MountsTo(l.dev, target, |l.dev.mnts|)
  }

  predicate DevicesMatch(ls: seq<Listed>) {
    forall i :: 0 <= i < |ls| ==> |ls[i].dev.mnts| == |ls[i].dev.ops|
  }

  function AllMounts(ls: seq<Listed>, target: string): seq<Mount>
    requires DevicesMatch(ls)
  {
    if ls == [] then [] else AllMounts(ls[..|ls| - 1], target) + MountsUnder(ls[|ls| - 1], target)
  }

  predicate NoSwap(ls: seq<Listed>) {
    forall i :: 0 <= i < |ls| ==> !ls[i].removable ==> !ls[i].dev.swap
  }

  lemma {:induction false} MountsOfConcat(a: seq<Item>, b: seq<Item>)
    requires AllRead(a)
    ensures MountsOf(a + b) == MountsOf(a) + MountsOf(b) && (AllRead(a + b) <==> AllRead(b))
  {
    hide ReadBack;
    if a == [] {
      assert a + b == b;
    } else {
      assert (a + b)[1..] == a[1..] + b;
      MountsOfConcat(a[1..], b);
      AllReadCons(a + b);
    }
  }

  lemma AllReadCons(items: seq<Item>)
    requires items != []
    ensures AllRead(items) <==> ReadBack(items[0]).Some? && AllRead(items[1..])
  {
    hide ReadBack;
    if ReadBack(items[0]).Some? && AllRead(items[1..]) {
      forall i | 0 <= i < |items|
        ensures ReadBack(items[i]).Some?
      {
        assert i > 0 ==> items[i] == items[1..][i - 1];
      }
    }
  }

  lemma {:induction false} EntriesGive(d: FsDevice, target: string, z: nat)
    requires z <= |d.mnts| == |d.ops| && d.mnttype.Some?
    ensures var es := Entries(d, d.mnttype.value, target, z); AllRead(es) && MountsOf(es) == MountsTo(d, target, z)
  {
    hide Shown, ReadBack;
    if z > 0 {
      EntriesGive(d, target, z - 1);
      EntriesStep(d, d.mnttype.value, target, z - 1);
      if target <= d.mnts[z - 1] {
        OneItem(EntryFor(d, d.mnttype.value, target, z - 1), MountAt(d, target, z - 1)[0]);
        MountsOfConcat(Entries(d, d.mnttype.value, target, z - 1), [EntryFor(d, d.mnttype.value, target, z - 1)]);
      }
    }
  }

  lemma OneItem(i: Item, m: Mount)
    requires (i.Entry? && i.m == m) || (i.Removable? && m == Mount("/dev/" + i.name, "/media/cdrom", "auto", "noauto,"))
    ensures AllRead([i]) && MountsOf([i]) == [m]
  {
    assert [i][1..] == [];
  }

  /** The items of one device. */
  function ItemsFor(l: Listed, target: string): seq<Item>
    requires |l.dev.mnts| == |l.dev.ops|
  {
    if l.removable then [Removable(l.dev.name)] else DeviceItems(l.dev, target)
  }

  lemma ItemsGive(l: Listed, target: string)
    requires |l.dev.mnts| == |l.dev.ops| && (l.removable || !l.dev.swap)
    ensures AllRead(ItemsFor(l, target)) && MountsOf(ItemsFor(l, target)) == MountsUnder(l, target)
  {
    hide Entries, ReadBack;
    if l.removable {
      OneItem(Removable(l.dev.name), MountsUnder(l, target)[0]);
    } else if l.dev.mnttype.Some? && l.dev.mnttype.value != "zfs" {
      EntriesGive(l.dev, target, |l.dev.mnts|);
      assert DeviceItems(l.dev, target) == Entries(l.dev, l.dev.mnttype.value, target, |l.dev.mnts|);
    }
  }

  /** The items that stand for a list of devices, in its order. */
  ghost predicate StandsFor(items: seq<Item>, ls: seq<Listed>, target: string) {
    DevicesMatch(ls) && (NoSwap(ls) ==> AllRead(items) && MountsOf(items) == AllMounts(ls, target))
  }

  lemma StandsForMore(items: seq<Item>, ls: seq<Listed>, l: Listed, target: string)
    requires StandsFor(items, ls, target) && |l.dev.mnts| == |l.dev.ops|
    ensures StandsFor(items + ItemsFor(l, target), ls + [l], target)
  {
    hide ItemsFor, MountsUnder, AllRead, MountsOf;
    assert (ls + [l])[..|ls|] == ls && (ls + [l])[|ls|] == l;
    if NoSwap(ls + [l]) {
      assert NoSwap(ls) by {
        assert forall i :: 0 <= i < |ls| ==> ls[i] == (ls + [l])[i];
      }
      ItemsGive(l, target);
      MountsOfConcat(items, ItemsFor(l, target));
    }
  }

  lemma {:induction false} PartsStand(items: seq<Item>, ls: seq<Listed>, b: Block, target: string, n: nat)
    requires StandsFor(items, ls, target) && ListsMatch(b) && n <= |b.parts|
    ensures StandsFor(items + PartItems(b, target, n), ls + OfParts(b, n), target)
  {
    hide StandsFor, DeviceItems;
    if n == 0 {
      assert items + PartItems(b, target, 0) == items && ls + OfParts(b, 0) == ls;
    } else {
      var l := Listed(b.parts[n - 1], false);
      PartsStand(items, ls, b, target, n - 1);
      StandsForMore(items + PartItems(b, target, n - 1), ls + OfParts(b, n - 1), l, target);
      Associate(items, PartItems(b, target, n - 1), ItemsFor(l, target));
      Associate(ls, OfParts(b, n - 1), [l]);
    }
  }

  lemma BlockStands(items: seq<Item>, ls: seq<Listed>, b: Block, target: string)
    requires StandsFor(items, ls, target) && ListsMatch(b)
    ensures StandsFor(items + BlockItems(b, target), ls + OfBlock(b), target)
  {
    hide StandsFor, DeviceItems, PartItems, OfParts;
    var l, n := Listed(b.disk, b.removable), |b.parts|;
    StandsForMore(items, ls, l, target);
    PartsStand(items + ItemsFor(l, target), ls + [l], b, target, n);
    Associate(items, ItemsFor(l, target), PartItems(b, target, n));
    Associate(ls, [l], OfParts(b, n));
  }

  lemma {:induction false} BlocksStand(items: seq<Item>, ls: seq<Listed>, bs: seq<Block>, target: string, n: nat)
    requires StandsFor(items, ls, target) && AllMatch(bs) && n <= |bs|
    ensures StandsFor(items + BlocksItems(bs, target, n), ls + AllDevices(bs[..n]), target)
  {
    hide StandsFor, ListsMatch, OfBlock, BlockItems;
    if n == 0 {
      assert items + BlocksItems(bs, target, 0) == items && ls + AllDevices(bs[..0]) == ls;
    } else {
      var b := bs[n - 1];
      BlocksStand(items, ls, bs, target, n - 1);
      BlockStands(items + BlocksItems(bs, target, n - 1), ls + AllDevices(bs[..n - 1]), b, target);
      Associate(items, BlocksItems(bs, target, n - 1), BlockItems(b, target));
      Associate(ls, AllDevices(bs[..n - 1]), OfBlock(b));
      assert bs[..n][..n - 1] == bs[..n - 1];
    }
  }

  lemma DevicesSnoc(bs: seq<Block>, b: Block)
    ensures AllDevices(bs + [b]) == AllDevices(bs) + OfBlock(b)
  {
    assert (bs + [b])[..|bs|] == bs;
  }

  lemma {:induction false} DevicesConcat(a: seq<Block>, b: seq<Block>)
    ensures AllDevices(a + b) == AllDevices(a) + AllDevices(b)
  {
    hide OfBlock, AllDevices;
    if b == [] {
      assert a + b == a;
      NoDevices();
    } else {
      var front, last := b[..|b| - 1], b[|b| - 1];
      assert b == front + [last];
      Associate(a, front, [last]);
      DevicesConcat(a, front);
      DevicesSnoc(front, last);
      DevicesSnoc(a + front, last);
      Associate(AllDevices(a), AllDevices(front), OfBlock(last));
    }
  }

  lemma NoDevices()
    ensures AllDevices([]) == []
  {
  }

  lemma {:induction false} TableStands(cs: seq<seq<Block>>, target: string, n: nat)
    requires (forall i :: 0 <= i < |cs| ==> AllMatch(cs[i])) && n <= |cs|
    ensures StandsFor(TableItems(cs, target, n), AllDevices(Blocks(cs[..n])), target)
  {
    hide StandsFor, AllMatch, BlocksItems, AllDevices;
    if n == 0 {
      NothingStands(target);
    } else {
      var items, ls, bs := TableItems(cs, target, n - 1), AllDevices(Blocks(cs[..n - 1])), cs[n - 1];
      TableStands(cs, target, n - 1);
      BlocksStand(items, ls, bs, target, |bs|);
      assert bs[..|bs|] == bs && cs[..n][..n - 1] == cs[..n - 1];
      DevicesConcat(Blocks(cs[..n - 1]), bs);
    }
  }

  lemma NothingStands(target: string)
    ensures StandsFor([], AllDevices([]), target)
  {
  }

  /**
   The printed table covers every device of the machine: with no swap in use, what the parser reads from
   it is exactly the mounts under the target of all devices, in order, and a removable disk's one mount.
   */
  lemma TableCoversDevices(cs: seq<seq<Block>>, target: string, lines: seq<string>, seen: seq<Mount>, ok: bool)
    requires CleanTable(cs) && (forall i :: 0 <= i < |cs| ==> AllMatch(cs[i])) && NoSwap(AllDevices(Blocks(cs)))
    requires Reads(TableText(cs, target), lines, seen, ok)
    ensures DevicesMatch(AllDevices(Blocks(cs))) && seen == AllMounts(AllDevices(Blocks(cs)), target)
  {
    hide Reads, TableItems, CleanTable, AllMatch, MountsOf, AllDevices, NoSwap;
    DumpIsNeverReadWhole(cs, target, lines, seen, ok);
    TableStands(cs, target, |cs|);
    assert cs[..|cs|] == cs;
  }

  lemma {:induction false} BlockListed(cs: seq<seq<Block>>, c: nat, j: nat)
    requires c < |cs| && j < |cs[c]|
    ensures cs[c][j] in Blocks(cs)
  {
    var n := |cs| - 1;
    if c < n {
      BlockListed(cs[..n], c, j);
    }
  }

  /** l is the disk or a partition of b. */
  predicate IsOf(l: Listed, b: Block) {
    l == Listed(b.disk, b.removable) || (l.dev in b.parts && !l.removable)
  }

  lemma {:induction false} PartListed(b: Block, n: nat, l: Listed)
    requires n <= |b.parts| && l.dev in b.parts[..n] && !l.removable
    ensures l in OfParts(b, n)
  {
    if l.dev in b.parts[..n - 1] {
      PartListed(b, n - 1, l);
    }
  }

  lemma BlockHas(b: Block, l: Listed)
    requires IsOf(l, b)
    ensures l in OfBlock(b)
  {
    if l != Listed(b.disk, b.removable) {
      assert b.parts[..|b.parts|] == b.parts;
      PartListed(b, |b.parts|, l);
    }
  }

  lemma {:induction false} DeviceListed(bs: seq<Block>, b: Block, l: Listed)
    requires b in bs && IsOf(l, b)
    ensures l in AllDevices(bs)
  {
    hide OfBlock, IsOf;
    var n := |bs| - 1;
    if b in bs[..n] {
      DeviceListed(bs[..n], b, l);
    } else {
      BlockHas(b, l);
    }
  }

  lemma {:induction false} MountListed(ls: seq<Listed>, l: Listed, m: Mount, target: string)
    requires DevicesMatch(ls) && l in ls && m in MountsUnder(l, target)
    ensures m in AllMounts(ls, target)
  {
    hide MountsUnder;
    var n := |ls| - 1;
    if l in ls[..n] {
      MountListed(ls[..n], l, m, target);
    } else {
      assert l == ls[n];
    }
  }

  lemma {:induction false} MountThere(d: FsDevice, target: string, n: nat, z: nat)
    requires z < n <= |d.mnts| == |d.ops| && d.mnttype.Some? && target <= d.mnts[z]
    ensures MountAt(d, target, z)[0] in MountsTo(d, target, n)
  {
    hide Shown;
    if z < n - 1 {
      MountThere(d, target, n - 1, z);
    }
  }

  /** In particular each mount under the target, of each disk and each partition of each controller, is read. */
  lemma EveryMountIsRead(cs: seq<seq<Block>>, target: string, lines: seq<string>, seen: seq<Mount>, ok: bool,
                         c: nat, j: nat, d: FsDevice, z: nat)
    requires CleanTable(cs) && (forall i :: 0 <= i < |cs| ==> AllMatch(cs[i])) && NoSwap(AllDevices(Blocks(cs)))
    requires Reads(TableText(cs, target), lines, seen, ok)
    requires c < |cs| && j < |cs[c]| && ((d == cs[c][j].disk && !cs[c][j].removable) || d in cs[c][j].parts)
    requires z < |d.mnts| == |d.ops| && target <= d.mnts[z] && d.mnttype.Some? && d.mnttype.value != "zfs"
    ensures Mount("/dev/" + d.name, Shown(target, d.mnts[z]), d.mnttype.value, d.ops[z]) in seen
  {
    hide Reads, TableText, CleanTable, AllMatch, Shown, MountsTo, AllMounts, AllDevices, Blocks, NoSwap;
    var l, bs := Listed(d, false), Blocks(cs);
    TableCoversDevices(cs, target, lines, seen, ok);
    BlockListed(cs, c, j);
    DeviceListed(bs, cs[c][j], l);
    MountThere(d, target, |d.mnts|, z);
    MountListed(AllDevices(bs), l, MountAt(d, target, z)[0], target);
  }

  lemma {:induction false} MountGiven(d: FsDevice, target: string, n: nat, m: Mount) returns (z: nat)
    requires n <= |d.mnts| == |d.ops| && d.mnttype.Some? && m in MountsTo(d, target, n)
    ensures z < n && target <= d.mnts[z]
    ensures m == Mount("/dev/" + d.name, Shown(target, d.mnts[z]), d.mnttype.value, d.ops[z])
  {
    hide Shown;
    if m in MountsTo(d, target, n - 1) {
      z := MountGiven(d, target, n - 1, m);
    } else {
      z := n - 1;
    }
  }

  lemma {:induction false} MountFrom(ls: seq<Listed>, target: string, m: Mount) returns (l: Listed)
    requires DevicesMatch(ls) && m in AllMounts(ls, target)
    ensures l in ls && |l.dev.mnts| == |l.dev.ops| && m in MountsUnder(l, target)
  {
    hide MountsUnder;
    var n := |ls| - 1;
    if m in AllMounts(ls[..n], target) {
      l := MountFrom(ls[..n], target, m);
    } else {
      l := ls[n];
    }
  }

  /** Conversely everything read is a mount under the target of a listed device that is no ZFS, or a removable disk. */
  lemma NothingElseIsRead(cs: seq<seq<Block>>, target: string, lines: seq<string>, seen: seq<Mount>, ok: bool, m: Mount)
    returns (l: Listed, z: nat)
    requires CleanTable(cs) && (forall i :: 0 <= i < |cs| ==> AllMatch(cs[i])) && NoSwap(AllDevices(Blocks(cs)))
    requires Reads(TableText(cs, target), lines, seen, ok) && m in seen
    ensures l in AllDevices(Blocks(cs))
    ensures !l.removable ==>
      && z < |l.dev.mnts| == |l.dev.ops| && target <= l.dev.mnts[z]
      && l.dev.mnttype.Some? && l.dev.mnttype.value != "zfs"
      && m == Mount("/dev/" + l.dev.name, Shown(target, l.dev.mnts[z]), l.dev.mnttype.value, l.dev.ops[z])
    ensures l.removable ==> m == Mount("/dev/" + l.dev.name, "/media/cdrom", "auto", "noauto,")
  {
    hide Reads, TableText, CleanTable, AllMatch, Shown, MountsTo, AllMounts, AllDevices, Blocks, NoSwap;
    TableCoversDevices(cs, target, lines, seen, ok);
    l := MountFrom(AllDevices(Blocks(cs)), target, m);
    z := 0;
    if !l.removable {
      z := MountGiven(l.dev, target, |l.dev.mnts|, m);
    }
  }

  // ---- Undoing the target prefix ----

  function Rejoined(target: string, shown: string): string {
    if shown == "/" then target else target + shown
  }

  /** Prefixing the target undoes the printer for every path but the target with a slash appended. */
  lemma RejoinedIff(target: string, mnt: string)
    requires target <= mnt
    ensures Rejoined(target, Shown(target, mnt)) == mnt <==> mnt != target + "/"
  {
  }

  /** The paths under the target, by string prefix. */
  function Under(mnts: seq<string>, target: string, z: nat): seq<string>
    requires z <= |mnts|
  {
    if z == 0 then [] else Under(mnts, target, z - 1) + if target <= mnts[z - 1] then [mnts[z - 1]] else []
  }

  lemma {:induction false} EntriesShow(d: FsDevice, fs: string, target: string, z: nat)
    requires z <= |d.mnts| == |d.ops|
    ensures var es, us := Entries(d, fs, target, z), Under(d.mnts, target, z);
      && |es| == |us|
      && forall i :: 0 <= i < |es| ==> target <= us[i] && es[i].Entry? && es[i].m.mnt == Shown(target, us[i])
  {
    hide Shown;
    if z > 0 {
      EntriesShow(d, fs, target, z - 1);
    }
  }

  lemma {:induction false} UnderHas(mnts: seq<string>, target: string, z: nat, p: string)
    requires z <= |mnts| && target <= p
    ensures p in Under(mnts, target, z) <==> p in mnts[..z]
  {
    if z > 0 {
      UnderHas(mnts, target, z - 1, p);
      assert mnts[..z] == mnts[..z - 1] + [mnts[z - 1]];
    }
  }

  /** The target prefixed to every mount point read. */
  function AllRejoined(target: string, seen: seq<Mount>): (r: seq<string>)
    ensures |r| == |seen| && forall i :: 0 <= i < |seen| ==> r[i] == Rejoined(target, seen[i].mnt)
  {
    seq(|seen|, i requires 0 <= i < |seen| => Rejoined(target, seen[i].mnt))
  }

  /**
   Printing a clean device's mounts, reading them back and prefixing the target gives its paths under
   the target, in order, exactly when none of them is the target with a slash appended.
   */
  lemma PathsReadBack(d: FsDevice, target: string, lines: seq<string>, seen: seq<Mount>, ok: bool)
    requires CleanDevice(d) && d.mnttype.Some? && d.mnttype.value != "zfs"
    requires Reads(Text(DeviceItems(d, target)), lines, seen, ok)
    ensures AllRejoined(target, seen) == Under(d.mnts, target, |d.mnts|) <==> target + "/" !in d.mnts
  {
    hide Reads, Entries, Under, Shown, Rejoined, DeviceItems;
    var n, us := |d.mnts|, Under(d.mnts, target, |d.mnts|);
    DeviceReadsBack(d, target, lines, seen, ok);
    EntriesShow(d, d.mnttype.value, target, n);
    UnderHas(d.mnts, target, n, target + "/");
    assert d.mnts[..n] == d.mnts;
    forall i | 0 <= i < |us|
      ensures AllRejoined(target, seen)[i] == us[i] <==> us[i] != target + "/"
    {
      RejoinedIff(target, us[i]);
    }
  }

  /** The printed path is absolute exactly when the prefix ends at a path component. */
  lemma ShownAbsoluteIff(target: string, mnt: string)
    requires target <= mnt
    ensures Shown(target, mnt) != [] && (Shown(target, mnt)[0] == '/' <==> mnt == target || mnt[|target|] == '/')
  {
  }

  /** The prefix test takes a sibling for a subdirectory and prints it as a relative mount point. */
  lemma SiblingIsPrinted()
    ensures var d := FsDevice("sda1", Some("ext4"), ["/mnt2"], ["rw"], false);
      DeviceItems(d, "/mnt") == [Entry(Mount("/dev/sda1", "2", "ext4", "rw"), false)]
  {
    var d := FsDevice("sda1", Some("ext4"), ["/mnt2"], ["rw"], false);
    assert "/mnt" <= "/mnt2" && "/mnt2"[4..] == "2" && Shown("/mnt", "/mnt2") == "2";
    assert Entries(d, "ext4", "/mnt", 0) == [];
    assert "/dev/" + d.name == "/dev/sda1";
    assert Entries(d, "ext4", "/mnt", 1) == [Entry(Mount("/dev/sda1", "2", "ext4", "rw"), false)];
  }
}
