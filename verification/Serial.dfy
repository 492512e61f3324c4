/** Serial-number clean-up: cleanup_serial of src/sg.c. */
module Serial {
  import opened CTypes
  import opened Strings

  /** What the function turns into spaces. */
  predicate Sep(c: char) {
    IsSpace(c) || !IsPrint(c)
  }

  /** The length of the leading run of kept characters. */
  function RunLength(s: string): (n: nat)
    ensures n <= |s|
    ensures forall i :: 0 <= i < n ==> !Sep(s[i])
    ensures n < |s| ==> Sep(s[n])
  {
    if s == [] || Sep(s[0]) then 0 else 1 + RunLength(s[1..])
  }

  /** The maximal runs of kept characters, in order. */
  function Words(s: string): seq<string> {
    if s == [] then []
    else if Sep(s[0]) then Words(s[1..])
    else [s[..RunLength(s)]] + Words(s[RunLength(s)..])
  }

  /** The input proper: up to the first NUL or the limit. */
  function UpToNul(s: string): (t: string)
    ensures t <= s && '\0' !in t && (|t| < |s| ==> s[|t|] == '\0')
  {
    if s == [] || s[0] == '\0' then "" else [s[0]] + UpToNul(s[1..])
  }

  function Cleaned(s: string): string {
    Join(Words(UpToNul(s)))
  }

  // ---- One more character ----

  predicate InWord(t: string) {
    t != [] && !Sep(t[|t| - 1])
  }

  lemma RunLengthSnoc(t: string, c: char)
    ensures RunLength(t + [c]) == if RunLength(t) == |t| && !Sep(c) then |t| + 1 else RunLength(t)
  {
    if t != [] && !Sep(t[0]) {
      RunLengthSnoc(t[1..], c);
      assert (t + [c])[1..] == t[1..] + [c];
    }
  }

  lemma WordsStep(s: string)
    ensures s == [] ==> Words(s) == []
    ensures s != [] && Sep(s[0]) ==> Words(s) == Words(s[1..])
    ensures s != [] && !Sep(s[0]) ==>
      RunLength(s) > 0 && Words(s) == [s[..RunLength(s)]] + Words(s[RunLength(s)..])
  {
  }

  lemma {:induction false} WordsSnoc(t: string, c: char)
    ensures InWord(t) ==> Words(t) != []
    ensures Words(t + [c]) ==
      if Sep(c) then Words(t)
      else if InWord(t) then Words(t)[..|Words(t)| - 1] + [Words(t)[|Words(t)| - 1] + [c]]
      else Words(t) + [[c]]
    decreases |t|
  {
    hide RunLength, Words, Sep;
    var u := t + [c];
    WordsStep(t);
    WordsStep(u);
    WordsStep([]);
    if t == [] {
      RunLengthSnoc(t, c);
      assert u == [c] && u[..1] == [c] && u[1..] == [];
    } else if Sep(t[0]) {
      assert u[1..] == t[1..] + [c];
      WordsSnoc(t[1..], c);
    } else {
      var n := RunLength(t);
      RunLengthSnoc(t, c);
      if n == |t| {
        OneWord(t, c);
      } else {
        assert u[..n] == t[..n] && u[n..] == t[n..] + [c];
        WordsSnoc(t[n..], c);
      }
    }
  }

  /** A text that is all one run of kept characters is one word. */
  lemma WholeWord(t: string)
    requires t != [] && !Sep(t[0]) && RunLength(t) == |t|
    ensures Words(t) == [t]
  {
    hide RunLength, Words, Sep;
    WordsStep(t);
    WordsStep([]);
    assert t[..|t|] == t;
    assert t[|t|..] == [];
  }

  /** A separator behind it adds no word. */
  lemma WordAndSep(t: string, c: char)
    requires t != [] && !Sep(t[0]) && Sep(c) && RunLength(t + [c]) == |t|
    ensures Words(t + [c]) == [t]
  {
    hide RunLength, Words, Sep;
    var u := t + [c];
    WordsStep(u);
    assert u[..|t|] == t;
    assert u[|t|..] == [c];
    WordsStep([c]);
    assert [c][1..] == [];
    WordsStep([]);
  }

  lemma OneWord(t: string, c: char)
    requires t != [] && !Sep(t[0]) && RunLength(t) == |t|
    ensures Words(t) == [t] && Words(t + [c]) == if Sep(c) then [t] else [t + [c]]
  {
    hide RunLength, Words, Sep;
    RunLengthSnoc(t, c);
    WholeWord(t);
    if Sep(c) {
      WordAndSep(t, c);
    } else {
      WholeWord(t + [c]);
    }
  }

  lemma {:induction false} JoinSnoc(ws: seq<string>, w: string)
    ensures Join(ws + [w]) == if ws == [] then w else Join(ws) + " " + w
  {
    if ws != [] {
      assert (ws + [w])[1..] == ws[1..] + [w];
      JoinSnoc(ws[1..], w);
      if |ws| == 1 {
        assert Join([w]) == w;
      }
    }
  }

  lemma JoinGrowLast(ws: seq<string>, c: char)
    requires ws != []
    ensures Join(ws[..|ws| - 1] + [ws[|ws| - 1] + [c]]) == Join(ws) + [c]
  {
    hide Join;
    var front, last := ws[..|ws| - 1], ws[|ws| - 1];
    assert ws == front + [last];
    JoinSnoc(front, last);
    JoinSnoc(front, last + [c]);
    Associate(Join(front) + " ", last, [c]);
  }

  /** What the buffer holds once t has been copied. */
  function Copied(t: string): string {
    if Words(t) == [] || InWord(t) then Join(Words(t)) else Join(Words(t)) + " "
  }

  lemma CopyStep(t: string, c: char)
    ensures Copied(t + [c]) ==
      if !Sep(c) then Copied(t) + [c]
      else if InWord(t) then Copied(t) + " "
      else Copied(t)
    ensures Words(t + [c]) == [] <==> Words(t) == [] && Sep(c)
    ensures InWord(t + [c]) <==> !Sep(c)
  {
    WordsSnoc(t, c);
    var ws := Words(t);
    if !Sep(c) {
      if InWord(t) {
        JoinGrowLast(ws, c);
      } else {
        JoinSnoc(ws, [c]);
      }
    }
  }

  lemma CopyBounds(t: string)
    ensures t == "" ==> Copied(t) == "" && !InWord(t) && Words(t) == []
    ensures Copied(t) == if Words(t) == [] || InWord(t) then Join(Words(t)) else Join(Words(t)) + " "
    ensures Words(t) == [] ==> Join(Words(t)) == ""
    ensures InWord(t) ==> Words(t) != []
  {
  }

  lemma {:induction false} UpToNulIs(s: string, n: nat)
    requires n <= |s| && (forall i :: 0 <= i < n ==> s[i] != '\0') && (n < |s| ==> s[n] == '\0')
    ensures UpToNul(s) == s[..n]
  {
    if n > 0 {
      UpToNulIs(s[1..], n - 1);
      assert s[..n] == [s[0]] + s[1..][..n - 1];
    }
  }

  /** cleanup_serial: the buffer holds the cleaned text and a NUL. */
  method CleanupSerial(serial: string, snmax: nat) returns (clean: array<char>, snlen: nat)
    requires snmax <= |serial|
    ensures fresh(clean) && snlen < clean.Length == snmax + 1
    ensures clean[..snlen] == Cleaned(serial[..snmax]) && clean[snlen] == '\0'
  {
    hide Words, Join, Copied, InWord, Cleaned, Sep;
    clean := new char[snmax + 1](i => '\0');
    snlen := 0;
    var inspace := true;
    var iter := 0;
    CopyBounds("");
    while iter < snmax && serial[iter] != '\0'
      invariant 0 <= iter <= snmax && snlen <= iter
      invariant forall i :: 0 <= i < iter ==> serial[i] != '\0'
      invariant clean[..snlen] == Copied(serial[..iter])
      invariant inspace <==> !InWord(serial[..iter])
      invariant snlen == 0 <==> Words(serial[..iter]) == []
    {
      var c := serial[iter];
      assert serial[..iter + 1] == serial[..iter] + [c];
      CopyBounds(serial[..iter]);
      CopyStep(serial[..iter], c);
      if Sep(c) {
        if !inspace {
          clean[snlen] := ' ';
          snlen := snlen + 1;
          inspace := true;
        }
      } else {
        clean[snlen] := c;
        snlen := snlen + 1;
        inspace := false;
      }
      iter := iter + 1;
    }
    CopyBounds(serial[..iter]);
    if inspace && snlen != 0 {
      snlen := snlen - 1;
    }
    assert clean[..snlen] == Join(Words(serial[..iter]));
    clean[snlen] := '\0';
    CleanedUpTo(serial, snmax, iter);
  }

  lemma CleanedUpTo(s: string, max: nat, n: nat)
    requires n <= max <= |s| && (forall i :: 0 <= i < n ==> s[i] != '\0') && (n < max ==> s[n] == '\0')
    ensures Cleaned(s[..max]) == Join(Words(s[..n]))
  {
    hide Join, Words, UpToNul;
    UpToNulIs(s[..max], n);
    assert s[..max][..n] == s[..n];
  }

  // ---- What the cleaned text is like ----

  predicate IsWord(w: string) {
    w != [] && forall i :: 0 <= i < |w| ==> !Sep(w[i])
  }

  predicate AreWords(ws: seq<string>) {
    forall i :: 0 <= i < |ws| ==> IsWord(ws[i])
  }

  lemma {:induction false} WordsAreWords(s: string)
    ensures AreWords(Words(s)) && |Join(Words(s))| <= |s|
    decreases |s|
  {
    if s == [] {
    } else if Sep(s[0]) {
      WordsAreWords(s[1..]);
    } else {
      var n := RunLength(s);
      WordsAreWords(s[n..]);
      if n < |s| {
        assert Words(s[n..]) == Words(s[n..][1..]);
        assert s[n..][1..] == s[n + 1..];
        WordsAreWords(s[n + 1..]);
      } else {
        assert Words(s[n..]) == [];
      }
    }
  }

  /** Splitting undoes joining. */
  lemma {:induction false} WordsOfJoin(ws: seq<string>)
    requires AreWords(ws)
    ensures Words(Join(ws)) == ws
  {
    if ws != [] {
      var w := ws[0];
      if |ws| == 1 {
        RunLengthIs(w, |w|);
        assert w[..|w|] == w && w[|w|..] == [];
      } else {
        var s := Join(ws);
        var rest := " " + Join(ws[1..]);
        assert s == w + rest;
        RunLengthIs(s, |w|);
        assert s[..|w|] == w && s[|w|..] == rest && rest[1..] == Join(ws[1..]);
        WordsOfJoin(ws[1..]);
      }
    }
  }

  lemma {:induction false} RunLengthIs(s: string, n: nat)
    requires n <= |s| && (forall i :: 0 <= i < n ==> !Sep(s[i])) && (n < |s| ==> Sep(s[n]))
    ensures RunLength(s) == n
  {
  }

  /** Every character printable, spaces single and only between words. */
  predicate Tidy(s: string) {
    && (forall i :: 0 <= i < |s| ==> IsPrint(s[i]))
    && (s != [] ==> s[0] != ' ' && s[|s| - 1] != ' ')
    && forall i :: 0 < i < |s| && s[i] == ' ' ==> s[i - 1] != ' '
  }

  lemma {:induction false} JoinIsTidy(ws: seq<string>)
    requires AreWords(ws)
    ensures Tidy(Join(ws))
    ensures ws != [] ==> Join(ws) != [] && Join(ws)[0] == ws[0][0]
  {
    if |ws| > 1 {
      JoinIsTidy(ws[1..]);
      var s, t := Join(ws), Join(ws[1..]);
      forall i | 0 < i < |s| && s[i] == ' '
        ensures s[i - 1] != ' '
      {
        if i > |ws[0]| + 1 {
          assert s[i] == t[i - |ws[0]| - 1] && s[i - 1] == t[i - |ws[0]| - 2];
        }
      }
    }
  }

  /** The cleaned text is tidy, no longer than the input, and cleaning it again changes nothing. */
  lemma CleanedIsNormal(s: string)
    ensures Tidy(Cleaned(s)) && |Cleaned(s)| <= |s|
    ensures Cleaned(Cleaned(s)) == Cleaned(s)
  {
    var t := UpToNul(s);
    WordsAreWords(t);
    CutShortens(s);
    JoinIsTidy(Words(t));
    WordsOfJoin(Words(t));
    UpToNulIs(Cleaned(s), |Cleaned(s)|);
    assert Cleaned(s)[..|Cleaned(s)|] == Cleaned(s);
  }

  // ---- Character by character ----

  /** What character i of t contributes: itself if graphic, a space right behind a graphic one, else nothing. */
  function Piece(t: string, i: nat): string
    requires i < |t|
  {
    if IsGraph(t[i]) then [t[i]] else if i > 0 && IsGraph(t[i - 1]) then " " else ""
  }

  function Pieces(t: string, n: nat): string
    requires n <= |t|
  {
    if n == 0 then "" else Pieces(t, n - 1) + Piece(t, n - 1)
  }

  lemma {:induction false} CopiedPieces(t: string, n: nat)
    requires n <= |t|
    ensures Copied(t[..n]) == Pieces(t, n) && (InWord(t[..n]) <==> n > 0 && IsGraph(t[n - 1]))
  {
    hide Copied, Words;
    CopyBounds("");
    if n == 0 {
      assert t[..0] == "";
    } else {
      CopiedPieces(t, n - 1);
      CopyStep(t[..n - 1], t[n - 1]);
      assert t[..n] == t[..n - 1] + [t[n - 1]];
    }
  }

  /** The graphic characters of s, in order. */
  function Graphics(s: string): string {
    if s == [] then "" else Graphics(s[..|s| - 1]) + if IsGraph(s[|s| - 1]) then [s[|s| - 1]] else ""
  }

  lemma {:induction false} GraphicsConcat(a: string, b: string)
    ensures Graphics(a + b) == Graphics(a) + Graphics(b)
  {
    if b == "" {
      assert a + b == a;
    } else {
      var n := |b| - 1;
      assert (a + b)[..|a| + n] == a + b[..n];
      GraphicsConcat(a, b[..n]);
    }
  }

  lemma {:induction false} GraphicsOfPieces(t: string, n: nat)
    requires n <= |t|
    ensures Graphics(Pieces(t, n)) == Graphics(t[..n])
  {
    if n == 0 {
      assert t[..0] == "";
    } else {
      GraphicsOfPieces(t, n - 1);
      GraphicsConcat(Pieces(t, n - 1), Piece(t, n - 1));
      assert t[..n][..n - 1] == t[..n - 1];
      if Piece(t, n - 1) != "" {
        assert Piece(t, n - 1)[..0] == "";
      }
    }
  }

  /**
   The cleaned text, character by character: every graphic character, one space behind each run of them,
   nothing for what else there is, and no space at the end.
   */
  lemma CleanedIs(s: string)
    ensures var t := UpToNul(s); var p := Pieces(t, |t|);
      Cleaned(s) == if p != "" && !IsGraph(t[|t| - 1]) then p[..|p| - 1] else p
  {
    hide Words, Join, UpToNul;
    var t := UpToNul(s);
    CopiedPieces(t, |t|);
    assert t[..|t|] == t;
    CopyBounds(t);
  }

  /** So without its spaces it is the graphic characters of the input up to NUL, in order. */
  lemma CleanedKeepsGraphics(s: string)
    ensures Graphics(Cleaned(s)) == Graphics(UpToNul(s))
  {
    hide Graphics, Cleaned, UpToNul;
    var t := UpToNul(s);
    var p := Pieces(t, |t|);
    CleanedIs(s);
    GraphicsOfPieces(t, |t|);
    assert t[..|t|] == t;
    if p != "" && !IsGraph(t[|t| - 1]) {
      PiecesEnd(t, |t|);
      assert p == p[..|p| - 1] + " ";
      GraphicsConcat(p[..|p| - 1], " ");
      NoGraphics();
    }
  }

  lemma NoGraphics()
    ensures Graphics(" ") == ""
  {
  }

  lemma {:induction false} PiecesEnd(t: string, n: nat)
    requires n <= |t| && Pieces(t, n) != "" && !IsGraph(t[n - 1])
    ensures Pieces(t, n)[|Pieces(t, n)| - 1] == ' '
  {
    if Piece(t, n - 1) == "" {
      PiecesEnd(t, n - 1);
    }
  }

  lemma {:induction false} CutShortens(s: string)
    ensures |UpToNul(s)| <= |s|
  {
    if s != [] {
      CutShortens(s[1..]);
    }
  }
}
