/** The controller list of src/growlight.c: find_pcie_controller finds a controller or makes and inserts one. */
module Controllers {
  import opened Wrappers
  import opened Decimal

  datatype Address = Address(domain: nat, bus: nat, dev: nat, func: nat)

  /** What the list holds of a controller; number is the count its identifier was made from. */
  datatype Info = Info(ident: string, driver: Option<string>, pcie: Option<Address>, number: nat)

  const VIRTUAL: Info := Info("virtual", None, None, 0)

  // ---- strcmp ----

  /** strcmp(a, b) < 0 */
  predicate Less(a: string, b: string) {
    b != [] && (a == [] || a[0] < b[0] || (a[0] == b[0] && Less(a[1..], b[1..])))
  }

  lemma {:induction false} LessTotal(a: string, b: string)
    ensures a == b || Less(a, b) || Less(b, a)
    ensures !(Less(a, b) && (Less(b, a) || a == b))
    decreases |a|
  {
    if a != [] && b != [] {
      LessTotal(a[1..], b[1..]);
      assert a == [a[0]] + a[1..] && b == [b[0]] + b[1..];
    }
  }

  lemma {:induction false} LessTransitive(a: string, b: string, c: string)
    requires Less(a, b) && Less(b, c)
    ensures Less(a, c)
    decreases |a|
  {
    if a != [] && a[0] == b[0] && b[0] == c[0] {
      LessTransitive(a[1..], b[1..], c[1..]);
    }
  }

  /** strcmp's order: at the first difference the smaller character, or the end, comes first. */
  lemma {:induction false} LessIff(a: string, b: string)
    ensures Less(a, b) <==> exists k ::
      0 <= k <= |a| && k < |b| && a[..k] == b[..k] && (k == |a| || a[k] < b[k])
  {
    if Less(a, b) {
      var k := Difference(a, b);
    }
    if k :| 0 <= k <= |a| && k < |b| && a[..k] == b[..k] && (k == |a| || a[k] < b[k]) {
      DifferenceDecides(a, b, k);
    }
  }

  lemma {:induction false} Difference(a: string, b: string) returns (k: nat)
    requires Less(a, b)
    ensures k <= |a| && k < |b| && a[..k] == b[..k] && (k == |a| || a[k] < b[k])
  {
    if a == [] || a[0] < b[0] {
      k := 0;
    } else {
      var j := Difference(a[1..], b[1..]);
      k := j + 1;
      assert a[..k] == [a[0]] + a[1..][..j] && b[..k] == [b[0]] + b[1..][..j];
    }
  }

  lemma {:induction false} DifferenceDecides(a: string, b: string, k: nat)
    requires k <= |a| && k < |b| && a[..k] == b[..k] && (k == |a| || a[k] < b[k])
    ensures Less(a, b)
  {
    if k > 0 {
      assert a[0] == a[..k][0] == b[..k][0] == b[0];
      assert a[1..][..k - 1] == a[..k][1..] && b[1..][..k - 1] == b[..k][1..];
      DifferenceDecides(a[1..], b[1..], k - 1);
    }
  }

  // ---- Manufactured identifiers ----

  function Ident(module_: string, number: nat): string {
    module_ + "-" + Dec(number)
  }

  /** Different modules or different numbers give different identifiers, whatever the module names contain. */
  lemma IdentInjective(m: string, i: nat, n: string, j: nat)
    requires Ident(m, i) == Ident(n, j)
    ensures m == n && i == j
  {
    var s := Ident(m, i);
    DecValue(i);
    DecValue(j);
    assert s[|m|] == '-' && s[|n|] == '-';
    if |m| < |n| {
      assert false;
    } else if |n| < |m| {
      assert false;
    }
    assert m == s[..|m|] && n == s[..|n|];
    assert Dec(i) == s[|m| + 1..] && Dec(j) == s[|n| + 1..];
    DecInjective(i, j);
  }

  lemma IdentIsNotVirtual(m: string, i: nat)
    ensures Ident(m, i) != "virtual"
  {
    assert Ident(m, i)[|m|] == '-';
  }

  // ---- The list ----

  function IndexOf(list: seq<Info>, addr: Address): (i: nat)
    ensures i <= |list|
    ensures i < |list| ==> list[i].pcie == Some(addr)
    ensures forall j :: 0 <= j < i ==> list[j].pcie != Some(addr)
  {
    if list == [] || list[0].pcie == Some(addr) then 0 else 1 + IndexOf(list[1..], addr)
  }

  /** Controllers whose driver is m. */
  function CountDriver(list: seq<Info>, m: string): nat {
    if list == [] then 0
    else CountDriver(list[..|list| - 1], m) + (if list[|list| - 1].driver == Some(m) then 1 else 0)
  }

  /** Where the insertion walk stops: at the first identifier greater than the new one. */
  function PlaceOf(list: seq<Info>, ident: string): (i: nat)
    ensures i <= |list|
    ensures forall j :: 0 <= j < i ==> !Less(ident, list[j].ident)
    ensures i < |list| ==> Less(ident, list[i].ident)
  {
    if list == [] || Less(ident, list[0].ident) then 0 else 1 + PlaceOf(list[1..], ident)
  }

  function InsertAt(list: seq<Info>, i: nat, x: Info): (r: seq<Info>)
    requires i <= |list|
    ensures |r| == |list| + 1
  {
    list[..i] + [x] + list[i..]
  }

  /** The record made for a new controller of module m. */
  function Made(list: seq<Info>, addr: Address, m: string): Info {
    Info(Ident(m, CountDriver(list, m)), Some(m), Some(addr), CountDriver(list, m))
  }

  /** snprintf's room: six characters beyond the module name, so five digits. */
  predicate Fits(list: seq<Info>, m: string) {
    |Dec(CountDriver(list, m))| <= 5
  }

  /** The list after one call; probed says that the PCI lookups of a new controller succeed. */
  function Step(list: seq<Info>, addr: Address, m: string, probed: bool): seq<Info> {
    if IndexOf(list, addr) < |list| || !Fits(list, m) || !probed then list
    else InsertAt(list, PlaceOf(list, Made(list, addr, m).ident), Made(list, addr, m))
  }

  // ---- What every call keeps ----

  predicate OnePerAddress(list: seq<Info>) {
    forall i, j :: 0 <= i < j < |list| && list[i].pcie.Some? ==> list[i].pcie != list[j].pcie
  }

  predicate SortedByIdent(list: seq<Info>) {
    forall i, j :: 0 <= i < j < |list| ==> Less(list[i].ident, list[j].ident)
  }

  /** Every entry is the virtual bus or carries a manufactured identifier numbered below its driver's count. */
  predicate WellNamed(list: seq<Info>) {
    forall i :: 0 <= i < |list| ==>
      list[i] == VIRTUAL ||
      (&& list[i].pcie.Some? && list[i].driver.Some?
       && list[i].ident == Ident(list[i].driver.value, list[i].number)
       && list[i].number < CountDriver(list, list[i].driver.value))
  }

  predicate Good(list: seq<Info>) {
    OnePerAddress(list) && SortedByIdent(list) && WellNamed(list)
  }

  lemma {:induction false} CountInsert(list: seq<Info>, i: nat, x: Info, m: string)
    requires i <= |list|
    ensures CountDriver(InsertAt(list, i, x), m) == CountDriver(list, m) + (if x.driver == Some(m) then 1 else 0)
    decreases |list|
  {
    var r := InsertAt(list, i, x);
    var n := |list|;
    if i == n {
      assert r[..|r| - 1] == list;
    } else {
      CountInsert(list[..n - 1], i, x, m);
      assert r[..|r| - 1] == InsertAt(list[..n - 1], i, x);
    }
  }

  /** The identifier about to be made is on no other controller. */
  lemma MadeIsNew(list: seq<Info>, addr: Address, m: string, i: nat)
    requires WellNamed(list) && i < |list|
    ensures list[i].ident != Made(list, addr, m).ident
  {
    IdentIsNotVirtual(m, CountDriver(list, m));
    if list[i] != VIRTUAL && list[i].ident == Made(list, addr, m).ident {
      IdentInjective(list[i].driver.value, list[i].number, m, CountDriver(list, m));
    }
  }

  lemma InsertKeepsSorted(list: seq<Info>, x: Info)
    requires SortedByIdent(list) && forall i :: 0 <= i < |list| ==> list[i].ident != x.ident
    ensures SortedByIdent(InsertAt(list, PlaceOf(list, x.ident), x))
  {
    var p := PlaceOf(list, x.ident);
    var r := InsertAt(list, p, x);
    forall i, j | 0 <= i < j < |r|
      ensures Less(r[i].ident, r[j].ident)
    {
      if j == p {
        LessTotal(x.ident, list[i].ident);
      } else if i == p && j > p + 1 {
        LessTransitive(x.ident, list[p].ident, list[j - 1].ident);
      }
    }
  }

  /** One call keeps one controller per address, distinct sorted identifiers, and their numbering. */
  lemma StepKeepsGood(list: seq<Info>, addr: Address, m: string, probed: bool)
    requires Good(list)
    ensures Good(Step(list, addr, m, probed))
  {
    hide Less, Dec, Ident;
    var r := Step(list, addr, m, probed);
    if r != list {
      var x := Made(list, addr, m);
      var p := PlaceOf(list, x.ident);
      forall i | 0 <= i < |list|
        ensures list[i].ident != x.ident
      {
        MadeIsNew(list, addr, m, i);
      }
      InsertKeepsSorted(list, x);
      InsertKeepsNames(list, p, x);
      assert forall i :: 0 <= i < |list| ==> list[i].pcie != Some(addr);
      InsertKeepsAddresses(list, p, x);
    }
  }

  lemma InsertKeepsAddresses(list: seq<Info>, p: nat, x: Info)
    requires p <= |list| && OnePerAddress(list) && x.pcie.Some?
    requires forall i :: 0 <= i < |list| ==> list[i].pcie != x.pcie
    ensures OnePerAddress(InsertAt(list, p, x))
  {
  }

  lemma InsertKeepsNames(list: seq<Info>, p: nat, x: Info)
    requires p <= |list| && WellNamed(list)
    requires x.pcie.Some? && x.driver.Some?
    requires x.number == CountDriver(list, x.driver.value) && x.ident == Ident(x.driver.value, x.number)
    ensures WellNamed(InsertAt(list, p, x))
  {
    hide CountDriver, Ident;
    var r := InsertAt(list, p, x);
    forall i | 0 <= i < |r| && r[i] != VIRTUAL
      ensures && r[i].pcie.Some? && r[i].driver.Some?
              && r[i].ident == Ident(r[i].driver.value, r[i].number)
              && r[i].number < CountDriver(r, r[i].driver.value)
    {
      if i != p {
        var y := list[if i < p then i else i - 1];
        assert r[i] == y;
      }
      CountInsert(list, p, x, r[i].driver.value);
    }
  }

  /** The entries of a driver, and their count. */
  function OfDriver(list: seq<Info>, m: string): set<nat> {
    set i: nat | i < |list| && list[i].driver == Some(m)
  }

  lemma {:induction false} CountIsCardinality(list: seq<Info>, m: string)
    ensures CountDriver(list, m) == |OfDriver(list, m)|
  {
    if list == [] {
      assert OfDriver(list, m) == {};
    } else {
      var n: nat := |list| - 1;
      CountIsCardinality(list[..n], m);
      assert OfDriver(list, m) == OfDriver(list[..n], m) + if list[n].driver == Some(m) then {n} else {};
    }
  }

  /**
   An address is listed after a call exactly when it was before, or its PCI lookups succeed and fewer
   than 100000 controllers of the module are listed; a new one is numbered by that count.
   */
  lemma ListedIff(list: seq<Info>, addr: Address, m: string, probed: bool)
    ensures var r := Step(list, addr, m, probed);
      && ((exists x :: x in r && x.pcie == Some(addr)) <==>
            (exists x :: x in list && x.pcie == Some(addr)) || (probed && |OfDriver(list, m)| < 100000))
      && (forall x :: x in list ==> x in r)
      && (r != list ==> multiset(r) == multiset(list) + multiset{Made(list, addr, m)})
  {
    hide Dec, CountDriver, PlaceOf, Made, OfDriver;
    CountIsCardinality(list, m);
    ShortIff(CountDriver(list, m), 5);
    PowerOfTen();
    var i := IndexOf(list, addr);
    if i < |list| {
      assert list[i] in list;
    } else {
      assert forall x :: x in list ==> x.pcie != Some(addr);
      if Fits(list, m) && probed {
        var x := Made(list, addr, m);
        MadeAt(list, addr, m);
        Inserted(list, PlaceOf(list, x.ident), x);
        assert x in Step(list, addr, m, probed);
      }
    }
  }

  lemma MadeAt(list: seq<Info>, addr: Address, m: string)
    ensures Made(list, addr, m).pcie == Some(addr)
  {
  }

  lemma Inserted(list: seq<Info>, i: nat, x: Info)
    requires i <= |list|
    ensures var r := InsertAt(list, i, x);
      x in r && (forall y :: y in list ==> y in r) && multiset(r) == multiset(list) + multiset{x}
  {
    var r := InsertAt(list, i, x);
    assert list == list[..i] + list[i..];
    assert r[i] == x;
  }

  datatype Request = Request(addr: Address, mod: string, probed: bool)

  function After(list: seq<Info>, rs: seq<Request>): seq<Info>
    decreases |rs|
  {
    if rs == [] then list else After(Step(list, rs[0].addr, rs[0].mod, rs[0].probed), rs[1..])
  }

  lemma {:induction false} AfterGood(list: seq<Info>, rs: seq<Request>)
    requires Good(list)
    ensures Good(After(list, rs))
    decreases |rs|
  {
    if rs != [] {
      StepKeepsGood(list, rs[0].addr, rs[0].mod, rs[0].probed);
      AfterGood(Step(list, rs[0].addr, rs[0].mod, rs[0].probed), rs[1..]);
    }
  }

  /**
   Over every run of calls from the list with only the virtual bus: at most one controller per PCI
   address, all identifiers pairwise distinct, and the list sorted by identifier.
   */
  lemma RunsKeepIdentities(rs: seq<Request>)
    ensures var list := After([VIRTUAL], rs);
      && (forall i, j :: 0 <= i < j < |list| && list[i].pcie.Some? ==> list[i].pcie != list[j].pcie)
      && (forall i, j :: 0 <= i < j < |list| ==> list[i].ident != list[j].ident && Less(list[i].ident, list[j].ident))
  {
    hide Less;
    AfterGood([VIRTUAL], rs);
    var list := After([VIRTUAL], rs);
    forall i, j | 0 <= i < j < |list|
      ensures list[i].ident != list[j].ident
    {
      LessTotal(list[i].ident, list[j].ident);
    }
  }

  // ---- The function on the linked list ----

  class Controller {
    var ident: string
    var driver: Option<string>
    var pcie: Option<Address>
    var next: Controller?
    ghost var number: nat

    constructor (ident: string, driver: Option<string>, pcie: Option<Address>, next: Controller?, ghost number: nat)
      ensures this.ident == ident && this.driver == driver && this.pcie == pcie && this.next == next
      ensures this.number == number
    {
      this.ident, this.driver, this.pcie, this.next, this.number := ident, driver, pcie, next, number;
    }
  }

  ghost function InfoOf(c: Controller): Info
    reads c
  {
    Info(c.ident, c.driver, c.pcie, c.number)
  }

  class ControllerList {
    var controllers: Controller?
    ghost var nodes: seq<Controller>

    ghost predicate Valid()
      reads this, nodes
    {
      && controllers == (if nodes == [] then null else nodes[0])
      && (forall i, j :: 0 <= i < j < |nodes| ==> nodes[i] != nodes[j])
      && forall i {:trigger nodes[i].next} :: 0 <= i < |nodes| ==>
           nodes[i].next == if i + 1 < |nodes| then nodes[i + 1] else null
    }

    ghost function Infos(): (list: seq<Info>)
      reads this, nodes
      ensures |list| == |nodes|
    {
      seq(|nodes|, i requires 0 <= i < |nodes| reads this, nodes => InfoOf(nodes[i]))
    }

    /** The list starts with the statically allocated virtual bus alone. */
    constructor ()
      ensures Valid() && Infos() == [VIRTUAL]
    {
      var v := new Controller("virtual", None, None, null, 0);
      controllers, nodes := v, [v];
    }

    method Find(addr: Address) returns (c: Controller?)
      requires Valid()
      ensures var i := IndexOf(Infos(), addr); c == if i < |nodes| then nodes[i] else null
      ensures c != null ==> c in nodes && c.pcie == Some(addr)
    {
      ghost var list, i := Infos(), 0;
      c := controllers;
      while c != null && c.pcie != Some(addr)
        invariant 0 <= i <= |nodes| && c == (if i < |nodes| then nodes[i] else null)
        invariant forall j :: 0 <= j < i ==> list[j].pcie != Some(addr)
        decreases |nodes| - i
      {
        c := c.next;
        i := i + 1;
      }
      IndexIs(list, addr, i);
    }

    static lemma {:induction false} IndexIs(list: seq<Info>, addr: Address, i: nat)
      requires i <= |list| && (forall j :: 0 <= j < i ==> list[j].pcie != Some(addr))
      requires i < |list| ==> list[i].pcie == Some(addr)
      ensures IndexOf(list, addr) == i
    {
    }

    method Count(m: string) returns (devno: nat)
      requires Valid()
      ensures devno == CountDriver(Infos(), m)
    {
      ghost var list, i := Infos(), 0;
      devno := 0;
      var idc := controllers;
      while idc != null
        invariant 0 <= i <= |nodes| && idc == (if i < |nodes| then nodes[i] else null)
        invariant devno == CountDriver(list[..i], m)
        decreases |nodes| - i
      {
        assert list[..i + 1][..i] == list[..i];
        if idc.driver == Some(m) {
          devno := devno + 1;
        }
        idc := idc.next;
        i := i + 1;
      }
      assert list[..i] == list;
    }

    /** find_pcie_controller: null when the identifier does not fit its buffer or the PCI lookups fail. */
    method FindPcieController(addr: Address, m: string, probed: bool) returns (c: Controller?)
      requires Valid()
      modifies this, nodes
      ensures Valid() && Infos() == Step(old(Infos()), addr, m, probed)
      ensures c != null <==> IndexOf(Infos(), addr) < |nodes|
      ensures c != null ==> c in nodes && c.pcie == Some(addr)
    {
      hide CountDriver, Less, Dec, PlaceOf, IndexOf, Infos;
      c := Find(addr);
      if c != null {
        return;
      }
      var devno := Count(m);
      if |m| + 1 + |Dec(devno)| >= |m| + 7 {
        return null;
      }
      if !probed {
        return null;
      }
      c := Insert(Ident(m, devno), m, addr, devno);
      ListsIt(Infos(), PlaceOf(old(Infos()), Ident(m, devno)), addr);
    }

    lemma ListsIt(list: seq<Info>, i: nat, addr: Address)
      requires i < |list| && list[i].pcie == Some(addr)
      ensures IndexOf(list, addr) < |list|
    {
    }

    method Insert(ident: string, m: string, addr: Address, ghost number: nat) returns (c: Controller)
      requires Valid()
      modifies this, nodes
      ensures Valid() && c in nodes && c.pcie == Some(addr)
      ensures var list := old(Infos()); var x := Info(ident, Some(m), Some(addr), number);
        Infos() == InsertAt(list, PlaceOf(list, ident), x)
    {
      hide Less, PlaceOf;
      ghost var list, i := Infos(), 0;
      var pre: Controller?, cur := null, controllers;
      while cur != null && !Less(ident, cur.ident)
        invariant 0 <= i <= |nodes| && cur == (if i < |nodes| then nodes[i] else null)
        invariant pre == if i > 0 then nodes[i - 1] else null
        invariant forall j :: 0 <= j < i ==> !Less(ident, list[j].ident)
        decreases |nodes| - i
      {
        pre, cur := cur, cur.next;
        i := i + 1;
      }
      PlaceIs(list, ident, i);
      c := new Controller(ident, Some(m), Some(addr), cur, number);
      Link(pre, c, i);
    }

    static lemma {:induction false} PlaceIs(list: seq<Info>, ident: string, i: nat)
      requires i <= |list| && (forall j :: 0 <= j < i ==> !Less(ident, list[j].ident))
      requires i < |list| ==> Less(ident, list[i].ident)
      ensures PlaceOf(list, ident) == i
    {
    }

    /** *pre = c, for a controller that already points at the rest of the list. */
    method Link(pre: Controller?, c: Controller, ghost i: nat)
      requires Valid() && i <= |nodes| && c !in nodes
      requires pre == (if i > 0 then nodes[i - 1] else null) && c.next == (if i < |nodes| then nodes[i] else null)
      modifies this, nodes
      ensures Valid() && c in nodes && c.pcie == old(c.pcie)
      ensures Infos() == InsertAt(old(Infos()), i, old(InfoOf(c)))
    {
      if pre == null {
        controllers := c;
      } else {
        pre.next := c;
      }
      nodes := nodes[..i] + [c] + nodes[i..];
      assert nodes[i] == c;
    }
  }
}
