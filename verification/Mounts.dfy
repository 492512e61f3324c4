/** The mount table parser of src/mounts.c: parse_mount and the loop of parse_mounts. */
module Mounts {
  import opened CTypes

  datatype Mount = Mount(dev: string, mnt: string, fs: string, ops: string)

  // ---- The grammar of a mount line ----

  predicate Word(w: string) {
    w != [] && AllGraph(w)
  }

  predicate Clean(m: Mount) {
    Word(m.dev) && Word(m.mnt) && Word(m.fs) && Word(m.ops)
  }

  /** s begins with the word w and one space character, of any kind. */
  predicate Leads(w: string, s: string) {
    Word(w) && |w| < |s| && s[..|w|] == w && IsSpace(s[|w|])
  }

  /** What follows that space. */
  function Past(w: string, s: string): string {
    if |w| < |s| then s[|w| + 1..] else ""
  }

  /** From the space after the options to the newline, the only one. */
  predicate IsTail(t: string) {
    && t != [] && IsSpace(t[0]) && t[|t| - 1] == '\n'
    && forall i :: 0 <= i < |t| - 1 ==> t[i] != '\n'
  }

  /** Four words, each followed by one space character, then anything up to the newline. */
  predicate IsLine(s: string, m: Mount) {
    var s1 := Past(m.dev, s);
    var s2 := Past(m.mnt, s1);
    var s3 := Past(m.fs, s2);
    && Leads(m.dev, s) && Leads(m.mnt, s1) && Leads(m.fs, s2) && Leads(m.ops, s3)
    && IsTail(s3[|m.ops|..])
  }

  /** No line begins s. */
  ghost predicate NoLine(s: string) {
    forall k, m :: 0 <= k <= |s| ==> !IsLine(s[..k], m)
  }

  ghost predicate NoField(s: string) {
    forall w :: !Leads(w, s)
  }

  lemma LeadsUnique(v: string, w: string, s: string)
    requires Leads(v, s) && Leads(w, s)
    ensures v == w
  {
  }

  lemma LeadsConcat(w: string, c: char, rest: string, s: string)
    requires Word(w) && IsSpace(c) && s == w + ([c] + rest)
    ensures Leads(w, s) && Past(w, s) == rest
  {
  }

  /** A field is seen alike in a text and in a long enough beginning of it. */
  lemma LeadsCut(w: string, s: string, k: nat)
    requires |w| < k <= |s|
    ensures Leads(w, s[..k]) <==> Leads(w, s)
    ensures Past(w, s[..k]) == Past(w, s)[..k - |w| - 1]
  {
  }

  /** The four fields of m lead s in turn. */
  predicate Laid(s: string, m: Mount) {
    var s1 := Past(m.dev, s);
    var s2 := Past(m.mnt, s1);
    Leads(m.dev, s) && Leads(m.mnt, s1) && Leads(m.fs, s2) && Leads(m.ops, Past(m.fs, s2))
  }

  /** How much of a line its fields and the spaces between them take. */
  function Used(m: Mount): nat {
    |m.dev| + |m.mnt| + |m.fs| + |m.ops| + 3
  }

  lemma LaidUsed(s: string, m: Mount)
    requires Laid(s, m)
    ensures Used(m) < |s| && Past(m.fs, Past(m.mnt, Past(m.dev, s)))[|m.ops|..] == s[Used(m)..]
  {
  }

  /** A line begins s, as its first k characters, exactly when its fields do and its tail ends there. */
  lemma LineIff(s: string, k: nat, m: Mount)
    requires k <= |s|
    ensures IsLine(s[..k], m) <==> Laid(s, m) && Used(m) < k && IsTail(s[Used(m)..k])
  {
    hide Leads, IsTail;
    var t := s[..k];
    if IsLine(t, m) {
      assert Laid(t, m);
      LaidUsed(t, m);
    }
    if Used(m) < k {
      LeadsCut(m.dev, s, k);
      var s1, k1 := Past(m.dev, s), k - |m.dev| - 1;
      LeadsCut(m.mnt, s1, k1);
      var s2, k2 := Past(m.mnt, s1), k1 - |m.mnt| - 1;
      LeadsCut(m.fs, s2, k2);
      LeadsCut(m.ops, Past(m.fs, s2), k2 - |m.fs| - 1);
      assert Laid(t, m) <==> Laid(s, m);
      if Laid(t, m) {
        LaidUsed(t, m);
        assert t[Used(m)..] == s[Used(m)..k];
      }
    }
  }

  lemma LaidUnique(s: string, m: Mount, n: Mount)
    requires Laid(s, m) && Laid(s, n)
    ensures m == n
  {
    hide Leads, Past;
    LeadsUnique(m.dev, n.dev, s);
    var s1 := Past(m.dev, s);
    LeadsUnique(m.mnt, n.mnt, s1);
    var s2 := Past(m.mnt, s1);
    LeadsUnique(m.fs, n.fs, s2);
    LeadsUnique(m.ops, n.ops, Past(m.fs, s2));
  }

  lemma TailMeans(s: string, e: nat, k: nat)
    requires e <= k <= |s| && IsTail(s[e..k])
    ensures e < k && s[k - 1] == '\n' && forall i :: e <= i < k - 1 ==> s[i] != '\n'
  {
  }

  lemma TailUnique(s: string, e: nat, k: nat, l: nat)
    requires e <= k <= |s| && e <= l <= |s| && IsTail(s[e..k]) && IsTail(s[e..l])
    ensures k == l
  {
    TailMeans(s, e, k);
    TailMeans(s, e, l);
  }

  /** At most one line begins a text: the grammar is unambiguous and prefix-free. */
  lemma LineUnique(s: string, k: nat, m: Mount, l: nat, n: Mount)
    requires k <= |s| && l <= |s| && IsLine(s[..k], m) && IsLine(s[..l], n)
    ensures k == l && m == n
  {
    hide IsLine, Laid, IsTail;
    LineIff(s, k, m);
    LineIff(s, l, n);
    LaidUnique(s, m, n);
    TailUnique(s, Used(m), k, l);
  }

  // ---- parse_mount ----

  lemma RunGrows(s: string, t: nat, r: nat)
    requires t <= r < |s| && AllGraph(s[t..r]) && IsGraph(s[r])
    ensures AllGraph(s[t..r + 1])
  {
    assert s[t..r + 1] == s[t..r] + [s[r]];
  }

  lemma NoFieldIn(s: string, r: nat)
    requires r <= |s| && AllGraph(s[..r]) && (r < |s| ==> !IsGraph(s[r]) && (IsSpace(s[r]) ==> r == 0))
    ensures NoField(s)
  {
  }

  /** One field of parse_mount, from position t: where its space is, or -1. */
  method ParseField(text: string, t: nat) returns (r: int)
    requires t <= |text|
    ensures r != -1 ==> t < r < |text| && Leads(text[t..r], text[t..])
    ensures r == -1 ==> NoField(text[t..])
  {
    ghost var s := text[t..];
    if |text| <= t {
      NoFieldIn(s, 0);
      return -1;
    }
    r := t;
    while IsGraph(text[r])
      invariant t <= r < |text| && AllGraph(text[t..r])
      decreases |text| - r
    {
      RunGrows(text, t, r);
      r := r + 1;
      if r >= |text| {
        assert text[t..r] == s[..r - t];
        NoFieldIn(s, r - t);
        return -1;
      }
    }
    assert text[t..r] == s[..r - t];
    if !IsSpace(text[r]) || r == t {
      NoFieldIn(s, r - t);
      return -1;
    }
  }

  lemma Blocked1(s: string)
    requires NoField(s)
    ensures NoLine(s)
  {
    hide Leads, Past, IsLine;
    forall k, n | 0 <= k <= |s|
      ensures !IsLine(s[..k], n)
    {
      LineIff(s, k, n);
    }
  }

  lemma Blocked2(s: string, dev: string)
    requires Leads(dev, s) && NoField(Past(dev, s))
    ensures NoLine(s)
  {
    hide Leads, Past, IsLine;
    forall k, n | 0 <= k <= |s|
      ensures !IsLine(s[..k], n)
    {
      LineIff(s, k, n);
      if Laid(s, n) {
        LeadsUnique(dev, n.dev, s);
      }
    }
  }

  lemma Blocked3(s: string, dev: string, mnt: string)
    requires Leads(dev, s) && Leads(mnt, Past(dev, s)) && NoField(Past(mnt, Past(dev, s)))
    ensures NoLine(s)
  {
    hide Leads, Past, IsLine;
    forall k, n | 0 <= k <= |s|
      ensures !IsLine(s[..k], n)
    {
      LineIff(s, k, n);
      if Laid(s, n) {
        LeadsUnique(dev, n.dev, s);
        LeadsUnique(mnt, n.mnt, Past(dev, s));
      }
    }
  }

  lemma Blocked4(s: string, dev: string, mnt: string, fs: string)
    requires Leads(dev, s) && Leads(mnt, Past(dev, s)) && Leads(fs, Past(mnt, Past(dev, s)))
    requires NoField(Past(fs, Past(mnt, Past(dev, s))))
    ensures NoLine(s)
  {
    hide Leads, Past, IsLine;
    forall k, n | 0 <= k <= |s|
      ensures !IsLine(s[..k], n)
    {
      LineIff(s, k, n);
      if Laid(s, n) {
        LeadsUnique(dev, n.dev, s);
        LeadsUnique(mnt, n.mnt, Past(dev, s));
        LeadsUnique(fs, n.fs, Past(mnt, Past(dev, s)));
      }
    }
  }

  lemma NoNewline(s: string, m: Mount)
    requires Laid(s, m) && Used(m) <= |s| && forall i :: Used(m) <= i < |s| ==> s[i] != '\n'
    ensures NoLine(s)
  {
    hide Laid, IsLine, IsTail;
    forall k, n | 0 <= k <= |s|
      ensures !IsLine(s[..k], n)
    {
      LineIff(s, k, n);
      if Laid(s, n) && Used(n) < k {
        LaidUnique(s, m, n);
        if IsTail(s[Used(n)..k]) {
          TailMeans(s, Used(n), k);
        }
      }
    }
  }

  /** The last loop of parse_mount. */
  method LineEnd(text: string, from: nat) returns (r: nat)
    requires from <= |text|
    ensures from <= r <= |text| && (r < |text| ==> text[r] == '\n')
    ensures forall i :: from <= i < r ==> text[i] != '\n'
  {
    r := from;
    while r < |text|
      invariant from <= r <= |text|
      invariant forall i :: from <= i < r ==> text[i] != '\n'
    {
      if text[r] == '\n' {
        break;
      }
      r := r + 1;
    }
  }

  lemma PastSlice(text: string, t: nat, r: nat)
    requires t <= r < |text|
    ensures Past(text[t..r], text[t..]) == text[r + 1..]
  {
  }

  /** parse_mount: the line that begins the text and its length, or -1 when none does. */
  method ParseMount(text: string) returns (r: int, m: Mount)
    ensures r != -1 ==> 0 < r <= |text| && IsLine(text[..r], m)
    ensures r == -1 ==> NoLine(text)
  {
    hide Leads, Past, Laid, IsLine, NoLine, NoField, IsTail, IsSpace, IsGraph;
    m := Mount("", "", "", "");
    assert text[0..] == text;
    r := ParseField(text, 0);
    if r == -1 {
      Blocked1(text);
      return;
    }
    var dev, t := text[0..r], r + 1;
    PastSlice(text, 0, r);
    r := ParseField(text, t);
    if r == -1 {
      Blocked2(text, dev);
      return;
    }
    var mnt := text[t..r];
    PastSlice(text, t, r);
    t := r + 1;
    r := ParseField(text, t);
    if r == -1 {
      Blocked3(text, dev, mnt);
      return;
    }
    var fs := text[t..r];
    PastSlice(text, t, r);
    t := r + 1;
    r := ParseField(text, t);
    if r == -1 {
      Blocked4(text, dev, mnt, fs);
      return;
    }
    var ops := text[t..r];
    m := Mount(dev, mnt, fs, ops);
    FieldsLaid(text, m);
    SpaceAfter(ops, text[t..]);
    r := RestOfLine(text, r, m);
  }

  /** From the space behind the four fields to the end of the line. */
  method RestOfLine(text: string, from: nat, ghost m: Mount) returns (r: int)
    requires Laid(text, m) && from == Used(m) < |text| && IsSpace(text[from])
    ensures r != -1 ==> 0 < r <= |text| && IsLine(text[..r], m)
    ensures r == -1 ==> NoLine(text)
  {
    hide Laid, IsLine, NoLine, IsTail, IsSpace;
    r := LineEnd(text, from);
    if r >= |text| {
      NoNewline(text, m);
      return -1;
    }
    r := r + 1;
    TailBetween(text, from, r);
    LineIff(text, r, m);
  }

  lemma FieldsLaid(s: string, m: Mount)
    requires Leads(m.dev, s) && Leads(m.mnt, Past(m.dev, s)) && Leads(m.fs, Past(m.mnt, Past(m.dev, s)))
    requires Leads(m.ops, Past(m.fs, Past(m.mnt, Past(m.dev, s))))
    ensures Laid(s, m)
  {
  }

  lemma SpaceAfter(w: string, s: string)
    requires Leads(w, s)
    ensures |w| < |s| && IsSpace(s[|w|])
  {
  }

  lemma TailBetween(s: string, e: nat, r: nat)
    requires e < r <= |s| && IsSpace(s[e])
    requires s[r - 1] == '\n' && forall i :: e <= i < r - 1 ==> s[i] != '\n'
    ensures IsTail(s[e..r])
  {
  }

  // ---- parse_mounts ----

  function Flatten(lines: seq<string>): string {
    if lines == [] then "" else lines[0] + Flatten(lines[1..])
  }

  ghost predicate AreLines(lines: seq<string>, seen: seq<Mount>) {
    |lines| == |seen| && forall i :: 0 <= i < |lines| ==> IsLine(lines[i], seen[i])
  }

  /** s is these lines and, unless all of it was read, a remainder that no line begins. */
  ghost predicate Reads(s: string, lines: seq<string>, seen: seq<Mount>, ok: bool) {
    && AreLines(lines, seen)
    && var n := |Flatten(lines)|;
    && n <= |s| && s[..n] == Flatten(lines)
    && (ok <==> n == |s|) && (!ok ==> NoLine(s[n..]))
  }

  lemma {:induction false} FlattenSnoc(lines: seq<string>, x: string)
    ensures Flatten(lines + [x]) == Flatten(lines) + x
  {
    if lines == [] {
      assert [x][1..] == [];
    } else {
      assert (lines + [x])[1..] == lines[1..] + [x];
      FlattenSnoc(lines[1..], x);
    }
  }

  /**
   The loop of parse_mounts: the mounts handed to handle_mount, in order. fails says which of the calls
   fail; a failure is remembered for the result but does not end the loop.
   */
  method ParseMounts(text: string, fails: (nat, Mount) -> bool)
    returns (ret: int, seen: seq<Mount>, ghost lines: seq<string>)
    ensures Reads(text, lines, seen, Flatten(lines) == text)
    ensures ret == 0 || ret == -1
    ensures ret == 0 <==> Flatten(lines) == text && forall i :: 0 <= i < |seen| ==> !fails(i, seen[i])
  {
    hide IsLine, NoLine;
    var idx := 0;
    ret, seen, lines := 0, [], [];
    while idx < |text|
      invariant 0 <= idx <= |text|
      invariant AreLines(lines, seen) && Flatten(lines) == text[..idx]
      invariant ret == if forall i :: 0 <= i < |seen| ==> !fails(i, seen[i]) then 0 else -1
      decreases |text| - idx
    {
      var r, m := ParseMount(text[idx..]);
      if r == -1 {
        return -1, seen, lines;
      }
      ghost var line, was := text[idx..][..r], seen;
      FlattenSnoc(lines, line);
      assert text[..idx] + line == text[..idx + r];
      if fails(|seen|, m) {
        ret := -1;
      }
      seen, lines := seen + [m], lines + [line];
      assert forall i :: 0 <= i < |was| ==> seen[i] == was[i];
      assert seen[|was|] == m;
      idx := idx + r;
    }
    assert text[..idx] == text;
  }

  lemma LineNotEmpty(s: string, m: Mount)
    requires IsLine(s, m)
    ensures s != []
  {
  }

  /** There is only one reading of a text, so the parser's is the one. */
  lemma {:induction false} ReadsUnique(s: string, ls: seq<string>, ms: seq<Mount>, ok: bool,
                                       ls': seq<string>, ms': seq<Mount>, ok': bool)
    requires Reads(s, ls, ms, ok) && Reads(s, ls', ms', ok')
    ensures ls == ls' && ms == ms' && ok == ok'
    decreases |ls|
  {
    hide IsLine;
    if ls != [] {
      ReadsFirst(s, ls, ms, ok);
    }
    if ls' != [] {
      ReadsFirst(s, ls', ms', ok');
    }
    if ls == [] || ls' == [] {
      assert s[0..] == s;
      assert ls == ls' == [];
    } else {
      LineUnique(s, |ls[0]|, ms[0], |ls'[0]|, ms'[0]);
      ReadsUnique(s[|ls[0]|..], ls[1..], ms[1..], ok, ls'[1..], ms'[1..], ok');
      assert ls == [ls[0]] + ls[1..] && ls' == [ls'[0]] + ls'[1..];
      assert ms == [ms[0]] + ms[1..] && ms' == [ms'[0]] + ms'[1..];
    }
  }

  lemma ReadsFirst(s: string, ls: seq<string>, ms: seq<Mount>, ok: bool)
    requires Reads(s, ls, ms, ok) && ls != []
    ensures |ls| == |ms| && 0 < |ls[0]| <= |s| && s[..|ls[0]|] == ls[0] && IsLine(ls[0], ms[0])
    ensures Reads(s[|ls[0]|..], ls[1..], ms[1..], ok)
  {
    hide IsLine, NoLine;
    LineNotEmpty(ls[0], ms[0]);
    var f, g := Flatten(ls), Flatten(ls[1..]);
    var k := |ls[0]|;
    assert f == ls[0] + g;
    assert s[..k] == s[..|f|][..k];
    assert s[k..][..|g|] == s[..|f|][k..];
    assert s[k..][|g|..] == s[|f|..];
    forall i | 0 <= i < |ls| - 1
      ensures IsLine(ls[1..][i], ms[1..][i])
    {
      assert IsLine(ls[i + 1], ms[i + 1]);
    }
  }

  lemma ReadsCons(line: string, m: Mount, s: string, ls: seq<string>, ms: seq<Mount>, ok: bool)
    requires IsLine(line, m) && Reads(s, ls, ms, ok)
    ensures Reads(line + s, [line] + ls, [m] + ms, ok)
  {
    hide IsLine, NoLine;
    var n := |Flatten(ls)|;
    assert ([line] + ls)[1..] == ls;
    assert (line + s)[..|line| + n] == line + s[..n];
    assert (line + s)[|line| + n..] == s[n..];
  }

  /** A line put together from its parts. */
  lemma Assembled(s: string, m: Mount, a: char, b: char, c: char, t: string)
    requires Clean(m) && IsSpace(a) && IsSpace(b) && IsSpace(c) && IsTail(t)
    requires s == m.dev + ([a] + (m.mnt + ([b] + (m.fs + ([c] + (m.ops + t))))))
    ensures IsLine(s, m)
  {
    hide Leads, Past, Word;
    var s3 := m.ops + t;
    var s2 := m.fs + ([c] + s3);
    var s1 := m.mnt + ([b] + s2);
    LeadsConcat(m.dev, a, s1, s);
    LeadsConcat(m.mnt, b, s2, s1);
    LeadsConcat(m.fs, c, s3, s2);
    LeadsConcat(m.ops, t[0], t[1..], s3) by { assert t == [t[0]] + t[1..]; }
    assert s3[|m.ops|..] == t;
  }

  lemma ReadsNothing()
    ensures Reads("", [], [], true)
  {
  }

  lemma ReadsStop(s: string)
    requires s != [] && NoLine(s)
    ensures Reads(s, [], [], false)
  {
  }
}
