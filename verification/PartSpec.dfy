/** lex_part_spec (src/notcurses/notcurses.c): percent, range and size strings into a sector range. */
module PartSpec {
  import opened Arithmetic
  import opened CTypes
  import opened Decimal
  import opened Wrappers

  /** An inclusive range of sectors, on uintmax_t: the last can be one below the first, wrapping. */
  datatype Range = Range(first: nat, last: nat)

  /** strchr: the first occurrence of c, or the end. */
  function Find(s: string, c: char, i: nat): (r: nat)
    requires i <= |s|
    ensures i <= r <= |s| && (r < |s| ==> s[r] == c)
    ensures forall j :: i <= j < r ==> s[j] != c
    decreases |s| - i
  {
    if i == |s| || s[i] == c then i else Find(s, c, i + 1)
  }

  predicate Has(s: string, c: char) {
    Find(s, c, 0) < |s|
  }

  /** The last of count sectors from first, on uintmax_t. */
  function LastOf(first: nat, count: nat): nat {
    (first + count - 1) % TWO64
  }

  /** The share of a zone that ul percent takes, on uintmax_t. */
  function PercentOf(zf: nat, zl: nat, ul: nat): nat
    requires zf <= zl
  {
    ((zl - zf) * ul) % TWO64 / 100
  }

  /** "N%": at most three characters before the sign, nothing after it, and a value up to 100. */
  function LexPercent(s: string, zf: nat, zl: nat): (r: Option<Range>)
    requires Has(s, '%') && zf <= zl
  {
    var pct := Find(s, '%', 0);
    if pct + 1 < |s| || pct > 3 || pct == 0 then None
    else
      var ul := Strtoull(s, 10).value;
      if ul > 100 then None
      else Some(Range(zf, LastOf(zf, PercentOf(zf, zl, ul))))
  }

  /** "A:B": both numbers as written, never compared with the zone. */
  function LexColon(s: string): (r: Option<Range>)
    requires Has(s, ':')
  {
    var col := Find(s, ':', 0);
    if s[0] == '-' then None
    else
      var a := Strtoull(s, 0);
      if a.value == MAX64 || a.used != col then None
      else
        var rest := s[col + 1..];
        if rest != [] && rest[0] == '-' then None
        else
          var b := Strtoull(rest, 0);
          if b.value == MAX64 || b.used < |rest| then None
          else Some(Range(a.value, b.value))
  }

  /** Bytes per unit of a size suffix; 0 for a letter that is none. */
  function Unit(c: char): nat {
    match c
    case 'E' => 0x1000_0000_0000_0000 case 'e' => 0x1000_0000_0000_0000
    case 'P' => 0x4_0000_0000_0000 case 'p' => 0x4_0000_0000_0000
    case 'T' => 0x100_0000_0000 case 't' => 0x100_0000_0000
    case 'G' => 0x4000_0000 case 'g' => 0x4000_0000
    case 'M' => 0x10_0000 case 'm' => 0x10_0000
    case 'K' => 0x400 case 'k' => 0x400
    case _ => 0
  }

  /** ull *= unit on 64 bits. */
  function Scaled(n: nat, unit: nat): (r: nat)
    ensures r < TWO64
  {
    (n * unit) % TWO64
  }

  /** bytes as whole sectors, if it is and the zone has that many. */
  function SectorsIn(bytes: nat, sectsize: nat, room: nat): (r: Option<nat>)
    requires sectsize > 0
    ensures r.Some? ==> r.value <= room && r.value * sectsize == bytes
  {
    if bytes % sectsize != 0 || bytes / sectsize > room then None else Some(bytes / sectsize)
  }

  /** "N" or "NU" bytes, spaces skipped first; erange is the value errno had before the call. */
  function LexSize(s: string, zf: nat, zl: nat, sectsize: nat, erange: bool): (r: Option<Range>)
    requires zf <= zl && sectsize > 0
  {
    var t := s[SkipSpaces(s, 0)..];
    if t != [] && t[0] == '-' then None
    else
      var n := Strtoull(t, 0);
      if n.value == MAX64 && (n.erange || erange) then None
      else if n.used == 0 then None
      else if n.used < |t| && (n.used + 1 < |t| || Unit(t[n.used]) == 0) then None
      else
        var bytes := if n.used < |t| then Scaled(n.value, Unit(t[n.used])) else n.value;
        var count := SectorsIn(bytes, sectsize, zl - zf + 1);
        if count.None? then None else Some(Range(zf, LastOf(zf, count.value)))
  }

  function LexSpec(s: string, zf: nat, zl: nat, sectsize: nat, erange: bool): (r: Option<Range>)
    requires zf <= zl && sectsize > 0
  {
    if Has(s, '%') then LexPercent(s, zf, zl)
    else if Has(s, ':') then LexColon(s)
    else LexSize(s, zf, zl, sectsize, erange)
  }

  /** The function as written: strchr tests, the space-skipping loop, and the out-parameters. */
  method LexPartSpec(psects: string, zf: nat, zl: nat, sectsize: nat, erange: bool)
    returns (ok: bool, fsect: nat, lsect: nat)
    requires zf <= zl && sectsize > 0
    ensures LexSpec(psects, zf, zl, sectsize, erange) == if ok then Some(Range(fsect, lsect)) else None
  {
    hide Strtoull, Unit, Scaled, LastOf, PercentOf;
    ok, fsect, lsect := false, 0, 0;
    var pct := Find(psects, '%', 0);
    if pct < |psects| {
      if pct + 1 < |psects| || pct > 3 || pct == 0 {
        return;
      }
      var ul := Strtoull(psects, 10).value;
      if ul > 100 {
        return;
      }
      fsect := zf;
      lsect := LastOf(zf, PercentOf(zf, zl, ul));
      ok := true;
      return;
    }
    var col := Find(psects, ':', 0);
    if col < |psects| {
      if psects[0] == '-' {
        return;
      }
      var n := Strtoull(psects, 0);
      if n.value == MAX64 || n.used != col {
        return;
      }
      var rest := psects[n.used + 1..];
      if rest != [] && rest[0] == '-' {
        return;
      }
      var m := Strtoull(rest, 0);
      if m.value == MAX64 || m.used < |rest| {
        return;
      }
      ok, fsect, lsect := true, n.value, m.value;
      return;
    }
    var i := 0;
    while i < |psects| && IsSpace(psects[i])
      invariant 0 <= i <= |psects|
      invariant SkipSpaces(psects, 0) == SkipSpaces(psects, i)
    {
      i := i + 1;
    }
    var t := psects[i..];
    if t != [] && t[0] == '-' {
      return;
    }
    var n := Strtoull(t, 0);
    if n.value == MAX64 && (n.erange || erange) {
      return;
    }
    if n.used == 0 {
      return;
    }
    var ull := n.value;
    if n.used < |t| {
      if n.used + 1 < |t| || Unit(t[n.used]) == 0 {
        return;
      }
      ull := Scaled(ull, Unit(t[n.used]));
    }
    if ull % sectsize != 0 {
      return;
    }
    ull := ull / sectsize;
    if ull > zl - zf + 1 {
      return;
    }
    ok, fsect, lsect := true, zf, LastOf(zf, ull);
  }

  // ---- Where a spec can land ----

  /** Sector numbers of a device whose size in bytes fits 64 bits, with sectors of at least 512 bytes. */
  const SECTORS: nat := 0x80_0000_0000_0000

  lemma LastInZone(zf: nat, zl: nat, count: nat)
    requires zf <= zl < SECTORS && count <= zl - zf + 1
    ensures LastOf(zf, count) == if count > 0 then zf + count - 1 else Pred64(zf)
  {
  }

  lemma PercentInZone(zf: nat, zl: nat, ul: nat)
    requires zf <= zl < SECTORS && ul <= 100
    ensures PercentOf(zf, zl, ul) == (zl - zf) * ul / 100 <= zl - zf
    ensures ul == 100 ==> PercentOf(zf, zl, ul) == zl - zf
  {
    var n := zl - zf;
    ProductMono(ul, 100, n);
    assert ul * n == n * ul;
    ModSmall(n * ul, TWO64);
  }

  /**
   A percent or size spec that lexes starts at its zone's first sector and ends inside the zone,
   or is empty: last is one below first (wrapping below zero).
   */
  lemma SpecStaysInZone(s: string, zf: nat, zl: nat, sectsize: nat, erange: bool)
    requires zf <= zl < SECTORS && sectsize > 0 && !Has(s, ':')
    requires LexSpec(s, zf, zl, sectsize, erange).Some?
    ensures var r := LexSpec(s, zf, zl, sectsize, erange).value;
      r.first == zf && (zf <= r.last <= zl || r.last == Pred64(zf))
  {
    hide LastOf, PercentOf, Strtoull, Unit;
    if Has(s, '%') {
      var ul := Strtoull(s, 10).value;
      PercentInZone(zf, zl, ul);
      LastInZone(zf, zl, PercentOf(zf, zl, ul));
    } else {
      var r := LexSize(s, zf, zl, sectsize, erange);
      SizeCount(s, zf, zl, sectsize, erange);
    }
  }

  lemma SizeCount(s: string, zf: nat, zl: nat, sectsize: nat, erange: bool)
    requires zf <= zl < SECTORS && sectsize > 0
    requires LexSize(s, zf, zl, sectsize, erange).Some?
    ensures var r := LexSize(s, zf, zl, sectsize, erange).value;
      r.first == zf && (zf <= r.last <= zl || r.last == Pred64(zf))
  {
    hide LastOf, Strtoull, Unit, Scaled;
    var t := s[SkipSpaces(s, 0)..];
    var n := Strtoull(t, 0);
    var bytes := if n.used < |t| then Scaled(n.value, Unit(t[n.used])) else n.value;
    LastInZone(zf, zl, SectorsIn(bytes, sectsize, zl - zf + 1).value);
  }

  /**
   "N%" for any decimal N up to 100 takes N percent of one sector less than the zone has, rounded
   down: in particular "100%" always leaves the zone's last sector out.
   */
  lemma PercentMeans(n: nat, zf: nat, zl: nat, sectsize: nat, erange: bool)
    requires n <= 100 && zf <= zl < SECTORS && sectsize > 0
    ensures LexSpec(Dec(n) + "%", zf, zl, sectsize, erange)
      == Some(Range(zf, if (zl - zf) * n < 100 then Pred64(zf) else zf + (zl - zf) * n / 100 - 1))
    ensures n == 100 && zf < zl ==> LexSpec(Dec(n) + "%", zf, zl, sectsize, erange) == Some(Range(zf, zl - 1))
  {
    hide LastOf, PercentOf, Strtoull, LexColon, LexSize;
    var s := Dec(n) + "%";
    PercentString(n);
    PercentInZone(zf, zl, n);
    LastInZone(zf, zl, PercentOf(zf, zl, n));
  }

  /** More than a hundred percent is refused. */
  lemma OverHundredRefused(n: nat, zf: nat, zl: nat, sectsize: nat, erange: bool)
    requires 100 < n <= MAX64 && zf <= zl && sectsize > 0
    ensures LexSpec(Dec(n) + "%", zf, zl, sectsize, erange) == None
  {
    hide LastOf, PercentOf, Strtoull, LexColon, LexSize, Dec;
    var s := Dec(n) + "%";
    DecDigits(n);
    FindAt(s, '%', 0, |Dec(n)|);
    StrtoullOfDec(n, "%", 10);
  }

  lemma PercentString(n: nat)
    requires n <= 100
    ensures var s := Dec(n) + "%";
      Find(s, '%', 0) == |s| - 1 && 1 <= |s| - 1 <= 3 && Strtoull(s, 10).value == n
  {
    hide Strtoull;
    var s := Dec(n) + "%";
    DecDigits(n);
    DecShort(n);
    FindAt(s, '%', 0, |Dec(n)|);
    StrtoullOfDec(n, "%", 10);
  }

  lemma DecShort(n: nat)
    requires n <= 100
    ensures |Dec(n)| <= 3
  {
  }

  lemma FindAt(s: string, c: char, i: nat, at: nat)
    requires i <= at < |s| && s[at] == c
    requires forall j :: i <= j < at ==> s[j] != c
    ensures Find(s, c, i) == at
    decreases at - i
  {
  }

  lemma FindNone(s: string, c: char, i: nat)
    requires i <= |s| && forall j :: i <= j < |s| ==> s[j] != c
    ensures Find(s, c, i) == |s|
    decreases |s| - i
  {
  }

  /** "A:B" for any decimals below 2^64 - 1 means sectors A to B, whatever the zone. */
  lemma ColonMeans(a: nat, b: nat, zf: nat, zl: nat, sectsize: nat, erange: bool)
    requires a < MAX64 && b < MAX64 && zf <= zl && sectsize > 0
    ensures LexSpec(Dec(a) + ":" + Dec(b), zf, zl, sectsize, erange) == Some(Range(a, b))
  {
    hide Strtoull, Dec, LexPercent, LexSize;
    ColonString(a, b);
    var s := Dec(a) + ":" + Dec(b);
    assert s == Dec(a) + (":" + Dec(b)) && s[|Dec(a)| + 1..] == Dec(b) == Dec(b) + "";
    StrtoullOfDec(a, ":" + Dec(b), 0);
    StrtoullOfDec(b, "", 0);
  }

  lemma ColonString(a: nat, b: nat)
    ensures var s := Dec(a) + ":" + Dec(b);
      !Has(s, '%') && Find(s, ':', 0) == |Dec(a)| && s[0] != '-' && Dec(b)[0] != '-'
  {
    hide Dec;
    var s := Dec(a) + ":" + Dec(b);
    DecDigits(a);
    DecDigits(b);
    FindNone(s, '%', 0);
    FindAt(s, ':', 0, |Dec(a)|);
  }

  lemma DecDigits(n: nat)
    ensures forall i :: 0 <= i < |Dec(n)| ==> '0' <= Dec(n)[i] <= '9'
  {
    DecValue(n);
    forall i | 0 <= i < |Dec(n)|
      ensures '0' <= Dec(n)[i] <= '9'
    {
      assert DigitValue(Dec(n)[i]) < 10;
    }
  }

  // ---- Sizes ----

  function Pow1024(k: nat): nat {
    if k == 0 then 1 else 1024 * Pow1024(k - 1)
  }

  /** u is no suffix at all, or the k-th of the letters K, M, G, T, P, E in either case. */
  predicate IsSuffix(u: string, k: nat) {
    if k == 0 then u == "" else k <= 6 && (u == ["KMGTPE"[k - 1]] || u == ["kmgtpe"[k - 1]])
  }

  predicate IsUnitLetter(c: char) {
    c in "KMGTPEkmgtpe"
  }

  lemma UnitIsPower(u: string, k: nat)
    requires IsSuffix(u, k) && k > 0
    ensures Unit(u[0]) == Pow1024(k)
  {
    PowersOf1024();
  }

  lemma PowersOf1024()
    ensures Pow1024(1) == 0x400 && Pow1024(2) == 0x10_0000 && Pow1024(3) == 0x4000_0000
    ensures Pow1024(4) == 0x100_0000_0000 && Pow1024(5) == 0x4_0000_0000_0000 && Pow1024(6) == 0x1000_0000_0000_0000
  {
    assert Pow1024(1) == 1024;
    assert Pow1024(2) == 1024 * 1024;
    assert Pow1024(3) == 1024 * Pow1024(2);
    assert Pow1024(4) == 1024 * Pow1024(3);
    assert Pow1024(5) == 1024 * Pow1024(4);
    assert Pow1024(6) == 1024 * Pow1024(5);
  }

  lemma UnitsAreLetters(c: char)
    ensures Unit(c) > 0 <==> IsUnitLetter(c)
  {
  }

  /** The sectors from a zone's first on that hold so many bytes, if they are whole and in the zone. */
  function WholeRange(bytes: nat, zf: nat, zl: nat, sectsize: nat): Option<Range>
    requires zf <= zl && sectsize > 0
  {
    if bytes % sectsize != 0 || bytes / sectsize > zl - zf + 1 then None
    else Some(Range(zf, LastOf(zf, bytes / sectsize)))
  }

  /**
   "N" or "N" and a letter asks for N * 1024^k bytes modulo 2^64, and is accepted exactly when that is
   whole sectors no more than the zone has. A stale ERANGE matters only to the greatest number.
   */
  lemma SizeMeans(n: nat, u: string, k: nat, zf: nat, zl: nat, sectsize: nat, erange: bool)
    requires n <= MAX64 && IsSuffix(u, k) && zf <= zl && sectsize > 0
    ensures LexSpec(Dec(n) + u, zf, zl, sectsize, erange)
      == if n == MAX64 && erange then None else WholeRange((n * Pow1024(k)) % TWO64, zf, zl, sectsize)
  {
    hide Strtoull, LastOf, LexPercent, LexColon, Unit, Dec, SkipSpaces, Find, Scaled, Pow1024, SectorsIn, WholeRange;
    SizeString(n, u, k);
    ScaledIs(n, u, k);
    RangeOfSectors((n * Pow1024(k)) % TWO64, zf, zl, sectsize);
  }

  lemma RangeOfSectors(bytes: nat, zf: nat, zl: nat, sectsize: nat)
    requires zf <= zl && sectsize > 0
    ensures var count := SectorsIn(bytes, sectsize, zl - zf + 1);
      WholeRange(bytes, zf, zl, sectsize) == if count.None? then None else Some(Range(zf, LastOf(zf, count.value)))
  {
  }

  lemma ScaledIs(n: nat, u: string, k: nat)
    requires n <= MAX64 && IsSuffix(u, k)
    ensures (if u == "" then n else Scaled(n, Unit(u[0]))) == (n * Pow1024(k)) % TWO64
    ensures u != "" ==> Unit(u[0]) > 0
  {
    if k > 0 {
      UnitIsPower(u, k);
    }
  }

  lemma SizeString(n: nat, u: string, k: nat)
    requires n <= MAX64 && IsSuffix(u, k)
    ensures var s := Dec(n) + u;
      && !Has(s, '%') && !Has(s, ':') && s != [] && s[0] != '-'
      && s[SkipSpaces(s, 0)..] == s && Strtoull(s, 0) == Converted(n, |s| - |u|, false)
      && (u != "" ==> s[|s| - 1] == u[0])
  {
    hide Strtoull, Dec, Find, SkipSpaces, IsSuffix;
    PlainTail(u, k);
    NumberThen(n, u);
    assert |u| <= 1;
    if u != "" {
      assert (Dec(n) + u)[|Dec(n)|] == u[0];
    }
  }

  lemma PlainTail(u: string, k: nat)
    requires IsSuffix(u, k)
    ensures forall i :: 0 <= i < |u| ==> u[i] != '%' && u[i] != ':'
    ensures |u| <= 1 && (u != "" ==> DigitValue(u[0]) >= 10)
  {
  }

  /** A decimal and something that is neither more of it, a percent sign nor a colon. */
  lemma NumberThen(n: nat, u: string)
    requires n <= MAX64 && forall i :: 0 <= i < |u| ==> u[i] != '%' && u[i] != ':'
    requires u != "" ==> DigitValue(u[0]) >= 10 && !(n == 0 && |u| > 1 && u[0] in "xX")
    ensures var s := Dec(n) + u;
      && !Has(s, '%') && !Has(s, ':') && s[0] != '-'
      && s[SkipSpaces(s, 0)..] == s && Strtoull(s, 0) == Converted(n, |Dec(n)|, false)
  {
    hide Strtoull, Dec;
    var s := Dec(n) + u;
    DecDigits(n);
    StrtoullOfDec(n, u, 0);
    FindNone(s, '%', 0);
    FindNone(s, ':', 0);
  }

  /** Any other letter behind the number, or more than one character, refuses the spec; "0x1" is another number. */
  lemma OtherSuffixRefused(n: nat, u: string, zf: nat, zl: nat, sectsize: nat, erange: bool)
    requires n <= MAX64 && zf <= zl && sectsize > 0
    requires forall i :: 0 <= i < |u| ==> u[i] != '%' && u[i] != ':'
    requires u != "" && DigitValue(u[0]) >= 10 && !(n == 0 && |u| > 1 && u[0] in "xX")
    requires |u| > 1 || !IsUnitLetter(u[0])
    ensures LexSpec(Dec(n) + u, zf, zl, sectsize, erange) == None
  {
    hide Strtoull, LastOf, LexPercent, LexColon, Unit, Dec, SkipSpaces, Find, Scaled, SectorsIn;
    NumberThen(n, u);
    UnitsAreLetters(u[0]);
    assert (Dec(n) + u)[|Dec(n)|] == u[0];
  }

  /** A number with a minus sign is refused as a size, although strtoull would take it. */
  lemma MinusRefused(s: string, zf: nat, zl: nat, sectsize: nat, erange: bool)
    requires zf <= zl && sectsize > 0 && !Has(s, '%')
    requires SkipSpaces(s, 0) < |s| && s[SkipSpaces(s, 0)] == '-' && (Has(s, ':') ==> s[0] == '-')
    ensures LexSpec(s, zf, zl, sectsize, erange) == None
  {
  }

  /** A size spec that is accepted gets exactly the bytes it names if and only if they fit 64 bits. */
  lemma SizeIsExactIffNoWrap(n: nat, u: string, k: nat, zf: nat, zl: nat, sectsize: nat, erange: bool)
    requires n <= MAX64 && IsSuffix(u, k) && 1 <= zf <= zl < SECTORS && sectsize > 0
    requires LexSpec(Dec(n) + u, zf, zl, sectsize, erange).Some?
    ensures var r := LexSpec(Dec(n) + u, zf, zl, sectsize, erange).value;
      (r.last - r.first + 1) * sectsize == n * Pow1024(k) <==> n * Pow1024(k) < TWO64
  {
    hide LexSpec, LastOf, Pow1024, IsSuffix, WholeRange;
    SizeMeans(n, u, k, zf, zl, sectsize, erange);
    WholeRangeHolds(n * Pow1024(k) % TWO64, zf, zl, sectsize);
    WrapLoses(n * Pow1024(k));
  }

  lemma WholeRangeHolds(bytes: nat, zf: nat, zl: nat, sectsize: nat)
    requires 1 <= zf <= zl < SECTORS && sectsize > 0 && WholeRange(bytes, zf, zl, sectsize).Some?
    ensures var r := WholeRange(bytes, zf, zl, sectsize).value; (r.last - r.first + 1) * sectsize == bytes
  {
    hide LastOf;
    LastInZone(zf, zl, bytes / sectsize);
  }

  lemma WrapLoses(n: nat)
    ensures n % TWO64 == n <==> n < TWO64
  {
  }

  /** "16777217T", 2^64 bytes and a tebibyte, is accepted and gets the tebibyte. */
  lemma SizeWrapsExample()
    ensures LexSpec("16777217T", 2048, 0x1_0000_0000, 512, false) == Some(Range(2048, 2048 + 0x8000_0000 - 1))
  {
    hide LexSpec, LastOf, Dec;
    DecOf16777217();
    assert "16777217T" == Dec(16777217) + "T";
    assert Pow1024(4) == 0x100_0000_0000 by { UnitIsPower("T", 4); }
    SizeMeans(16777217, "T", 4, 2048, 0x1_0000_0000, 512, false);
    LastInZone(2048, 0x1_0000_0000, 0x8000_0000);
  }

  lemma DecOf16777217()
    ensures Dec(16777217) == "16777217"
  {
    assert Dec(16) == "16";
    assert Dec(1677) == "1677";
    assert Dec(167772) == "167772";
  }
}
