/** The command-line lexer: tokenize of src/readline/readline.c, on already decoded characters. */
module Tokenizer {
  import opened CTypes
  import opened Strings
  import opened Wrappers

  // ---- The lexer as a function ----

  function Toggled(c: char, q: bool): bool {
    if c == '"' then !q else q
  }

  function Cons(w: string, r: Option<seq<string>>): Option<seq<string>> {
    if r.None? then None else Some([w] + r.value)
  }

  function Prepend(ws: seq<string>, r: Option<seq<string>>): Option<seq<string>> {
    if r.None? then None else Some(ws + r.value)
  }

  /** The tokens of s when none is begun and the quote flag is q; None for unterminated quotes. */
  function Tokens(s: string, q: bool): Option<seq<string>>
    decreases |s|, |s| + 1
  {
    if s == [] then Some([])
    else if IsSpace(s[0]) then Tokens(s[1..], q)
    else Rest(s, 1, s[0] == '"' || q)
  }

  /**
   The tokens when the first k characters of s are a token begun. A character neither graphic nor
   space ends the token and is dropped, even inside quotes.
   */
  function Rest(s: string, k: nat, q: bool): Option<seq<string>>
    requires 1 <= k <= |s|
    decreases |s|, |s| - k
  {
    if k == |s| then (if q then None else Some([s]))
    else if IsGraph(s[k]) then Rest(s, k + 1, Toggled(s[k], q))
    else if IsSpace(s[k]) && q then Rest(s, k + 1, q)
    else Cons(s[..k], Tokens(s[k + 1..], q))
  }

  lemma PrependCons(ws: seq<string>, w: string, r: Option<seq<string>>)
    ensures Prepend(ws, Cons(w, r)) == Prepend(ws + [w], r)
  {
    if r.Some? {
      assert ws + ([w] + r.value) == ws + [w] + r.value;
    }
  }

  lemma PrependNothing(r: Option<seq<string>>)
    ensures Prepend([], r) == r
  {
    if r.Some? {
      assert [] + r.value == r.value;
    }
  }

  /** tokenize: one pass with a start mark, a length, a quote flag and a growing list. */
  method Tokenize(line: string) returns (ok: bool, tokes: seq<string>)
    ensures Tokens(line, false) == if ok then Some(tokes) else None
  {
    hide Tokens, Rest;
    var inquotes := false;
    var s := -1;
    var wchars, i := 0, 0;
    tokes := [];
    var conv := true;
    assert line[0..] == line;
    PrependNothing(Tokens(line, false));
    while conv
      invariant 0 <= i <= |line|
      invariant s == -1 || !conv || (0 <= s < i && wchars == i - s)
      invariant conv && s == -1 ==> Tokens(line, false) == Prepend(tokes, Tokens(line[i..], inquotes))
      invariant conv && s != -1 ==> Tokens(line, false) == Prepend(tokes, Rest(line[s..], wchars, inquotes))
      invariant !conv ==> Tokens(line, false) == Some(tokes)
      decreases |line| - i, conv
    {
      conv := i < |line|;
      assert tokes + [] == tokes;
      if s == -1 {
        TokensStep(line[i..], inquotes);
        if conv {
          var w := line[i];
          assert line[i..][1..] == line[i + 1..];
          if !IsSpace(w) {
            if w == '"' {
              inquotes := true;
            }
            s := i;
            wchars := 1;
          }
          i := i + 1;
        }
      } else {
        RestStep(line[s..], wchars, inquotes);
        if !conv && inquotes {
          return false, [];
        }
        if conv && IsGraph(line[i]) {
          if line[i] == '"' {
            inquotes := !inquotes;
          }
          wchars := wchars + 1;
          i := i + 1;
        } else if conv && IsSpace(line[i]) && inquotes {
          wchars := wchars + 1;
          i := i + 1;
        } else {
          var n := line[s..s + wchars];
          assert line[s..][..wchars] == n;
          if conv {
            assert line[s..][wchars + 1..] == line[i + 1..];
            PrependCons(tokes, n, Tokens(line[i + 1..], inquotes));
            i := i + 1;
          }
          assert !conv ==> n == line[s..];
          tokes := tokes + [n];
          wchars := 0;
          s := -1;
        }
      }
    }
    ok := true;
  }

  lemma TokensStep(s: string, q: bool)
    ensures s == [] ==> Tokens(s, q) == Some([])
    ensures s != [] ==> Tokens(s, q) == if IsSpace(s[0]) then Tokens(s[1..], q) else Rest(s, 1, s[0] == '"' || q)
  {
  }

  lemma RestStep(s: string, k: nat, q: bool)
    requires 1 <= k <= |s|
    ensures k == |s| ==> Rest(s, k, q) == if q then None else Some([s])
    ensures k < |s| && IsGraph(s[k]) ==> Rest(s, k, q) == Rest(s, k + 1, Toggled(s[k], q))
    ensures k < |s| && IsSpace(s[k]) && q ==> Rest(s, k, q) == Rest(s, k + 1, q)
    ensures k < |s| && !IsGraph(s[k]) && !(IsSpace(s[k]) && q) ==> Rest(s, k, q) == Cons(s[..k], Tokens(s[k + 1..], q))
  {
  }

  // ---- What the tokens of a line are ----

  /** Only graphic characters and spaces. */
  predicate Plain(s: string) {
    forall i :: 0 <= i < |s| ==> IsGraph(s[i]) || IsSpace(s[i])
  }

  /** The quote flag after s, starting from q. */
  function Parity(s: string, q: bool): bool {
    if s == [] then q else Parity(s[1..], Toggled(s[0], q))
  }

  /** s without its unquoted spaces. */
  function Unspaced(s: string, q: bool): string {
    if s == [] then ""
    else if IsSpace(s[0]) && !q then Unspaced(s[1..], q)
    else [s[0]] + Unspaced(s[1..], Toggled(s[0], q))
  }

  function Concat(ws: seq<string>): string {
    if ws == [] then "" else ws[0] + Concat(ws[1..])
  }

  /** Non-empty, balanced quotes, every space inside quotes. */
  predicate IsToken(w: string) {
    && w != [] && Plain(w) && !Parity(w, false)
    && forall i :: 0 <= i < |w| && IsSpace(w[i]) ==> Parity(w[..i], false)
  }

  predicate AreTokens(ws: seq<string>) {
    forall i :: 0 <= i < |ws| ==> IsToken(ws[i])
  }

  lemma {:induction false} ParityConcat(a: string, b: string, q: bool)
    ensures Parity(a + b, q) == Parity(b, Parity(a, q))
  {
    if a == [] {
      assert a + b == b;
    } else {
      assert (a + b)[1..] == a[1..] + b;
      ParityConcat(a[1..], b, Toggled(a[0], q));
    }
  }

  lemma ParitySnoc(s: string, k: nat, q: bool)
    requires k < |s|
    ensures Parity(s[..k + 1], q) == Toggled(s[k], Parity(s[..k], q))
  {
    assert s[..k + 1] == s[..k] + [s[k]];
    ParityConcat(s[..k], [s[k]], q);
    assert [s[k]][1..] == [];
  }

  lemma {:induction false} UnspacedConcat(a: string, b: string, q: bool)
    ensures Unspaced(a + b, q) == Unspaced(a, q) + Unspaced(b, Parity(a, q))
  {
    if a == [] {
      assert a + b == b;
    } else {
      assert (a + b)[1..] == a[1..] + b;
      UnspacedConcat(a[1..], b, Toggled(a[0], q));
    }
  }

  /** Every space of s is quoted, starting from q. */
  predicate SpacesQuoted(s: string) {
    forall i :: 0 <= i < |s| && IsSpace(s[i]) ==> Parity(s[..i], false)
  }

  lemma {:induction false} UnspacedToken(s: string)
    requires SpacesQuoted(s)
    ensures Unspaced(s, false) == s
  {
    if s != [] {
      var n := |s| - 1;
      var t := s[..n];
      assert s == t + [s[n]];
      forall i | 0 <= i < |t| && IsSpace(t[i])
        ensures Parity(t[..i], false)
      {
        assert t[..i] == s[..i];
      }
      UnspacedToken(t);
      UnspacedConcat(t, [s[n]], false);
      assert [s[n]][1..] == [];
    }
  }

  /** s[..k] is a token in progress: it begins a token, its spaces are quoted, and q is its quote flag. */
  predicate Begun(s: string, k: nat, q: bool) {
    && 1 <= k <= |s| && Plain(s) && !IsSpace(s[0])
    && SpacesQuoted(s[..k]) && Parity(s[..k], false) == q
  }

  lemma BegunGrows(s: string, k: nat, q: bool)
    requires Begun(s, k, q) && k < |s| && (IsGraph(s[k]) || q)
    ensures Begun(s, k + 1, Toggled(s[k], q))
  {
    ParitySnoc(s, k, false);
    var t := s[..k + 1];
    forall i | 0 <= i < |t| && IsSpace(t[i])
      ensures Parity(t[..i], false)
    {
      assert t[..i] == s[..i] && (i < k ==> s[..k][..i] == s[..i] && s[..k][i] == s[i]);
      assert i == k ==> !IsGraph(s[k]);
    }
  }

  lemma BegunStarts(s: string)
    requires s != [] && Plain(s) && !IsSpace(s[0])
    ensures Begun(s, 1, s[0] == '"')
  {
  }

  lemma BegunIsToken(s: string, k: nat)
    requires Begun(s, k, false)
    ensures IsToken(s[..k])
  {
  }

  /** The claims about one suffix, in terms of what the lexer makes of it. */
  predicate Lexes(s: string, q: bool, r: Option<seq<string>>) {
    && (r.None? <==> Parity(s, q))
    && (r.Some? ==> AreTokens(r.value) && Concat(r.value) == Unspaced(s, q))
  }

  lemma LexesCons(s: string, k: nat, r: Option<seq<string>>)
    requires Begun(s, k, false) && k < |s| && IsSpace(s[k])
    requires Lexes(s[k + 1..], false, r)
    ensures Lexes(s, false, Cons(s[..k], r))
  {
    var w, rest := s[..k], s[k + 1..];
    assert s == w + ([s[k]] + rest);
    ParityConcat(w, [s[k]] + rest, false);
    UnspacedConcat(w, [s[k]] + rest, false);
    UnspacedToken(w);
    assert ([s[k]] + rest)[1..] == rest;
    BegunIsToken(s, k);
    if r.Some? {
      assert ([w] + r.value)[1..] == r.value;
    }
  }

  lemma LexesSkip(s: string, r: Option<seq<string>>)
    requires s != [] && IsSpace(s[0]) && Lexes(s[1..], false, r)
    ensures Lexes(s, false, r)
  {
  }

  lemma LexesEnd(s: string, q: bool)
    requires Begun(s, |s|, q)
    ensures Lexes(s, false, if q then None else Some([s]))
  {
    assert s[..|s|] == s;
    UnspacedToken(s);
    if !q {
      assert [s][1..] == [];
      assert Concat([s]) == s + Concat([]);
    }
  }

  /**
   A plain line fails exactly when it has an odd number of quotes; otherwise its tokens are non-empty
   with balanced quotes and quoted spaces only, and concatenate to the line without unquoted spaces.
   */
  lemma {:induction false} TokensOfLine(s: string)
    requires Plain(s)
    ensures Lexes(s, false, Tokens(s, false))
    decreases |s|, |s| + 1
  {
    hide Lexes, Begun;
    TokensStep(s, false);
    if s == [] {
      LexesNothing();
    } else if IsSpace(s[0]) {
      TokensOfLine(s[1..]);
      LexesSkip(s, Tokens(s[1..], false));
    } else {
      BegunStarts(s);
      RestOfLine(s, 1, s[0] == '"');
    }
  }

  lemma LexesNothing()
    ensures Lexes("", false, Some([]))
  {
  }

  lemma {:induction false} RestOfLine(s: string, k: nat, q: bool)
    requires 1 <= k <= |s| && Plain(s) && Begun(s, k, q)
    ensures Lexes(s, false, Rest(s, k, q))
    decreases |s|, |s| - k
  {
    hide Lexes, Begun;
    RestStep(s, k, q);
    if k == |s| {
      LexesEnd(s, q);
    } else if IsGraph(s[k]) || q {
      BegunGrows(s, k, q);
      RestOfLine(s, k + 1, Toggled(s[k], q));
    } else {
      TokensOfLine(s[k + 1..]);
      LexesCons(s, k, Tokens(s[k + 1..], false));
    }
  }

  // ---- Joining and lexing again ----

  /** A token followed by nothing or by any space is lexed whole. */
  lemma {:induction false} RestOfToken(w: string, rest: string, k: nat)
    requires IsToken(w) && 1 <= k <= |w| && (rest != [] ==> IsSpace(rest[0]))
    ensures Rest(w + rest, k, Parity(w[..k], false))
      == if rest == [] then Some([w]) else Cons(w, Tokens(rest[1..], false))
    decreases |w| - k
  {
    var s := w + rest;
    RestStep(s, k, Parity(w[..k], false));
    if k == |w| {
      assert w[..k] == w && s[..k] == w;
      if rest == [] {
        assert s == w;
      } else {
        assert s[k] == rest[0] && s[k + 1..] == rest[1..];
      }
    } else {
      ParitySnoc(w, k, false);
      RestOfToken(w, rest, k + 1);
    }
  }

  lemma FirstOfToken(w: string)
    requires IsToken(w)
    ensures w != [] && !IsSpace(w[0]) && Parity(w[..1], false) == (w[0] == '"')
  {
  }

  lemma JoinStep(ws: seq<string>)
    ensures ws == [] ==> Join(ws) == ""
    ensures ws != [] ==> Join(ws) == ws[0] + if |ws| == 1 then "" else " " + Join(ws[1..])
  {
    assert |ws| == 1 ==> ws[0] + "" == ws[0];
    assert |ws| > 1 ==> ws[0] + " " + Join(ws[1..]) == ws[0] + (" " + Join(ws[1..]));
  }

  /** A list of tokens joined by single spaces lexes to that list. */
  lemma {:induction false} TokensOfJoined(ws: seq<string>)
    requires AreTokens(ws)
    ensures Tokens(Join(ws), false) == Some(ws)
  {
    hide Rest, IsToken, Parity, Tokens, Join;
    JoinStep(ws);
    if ws == [] {
      TokensStep("", false);
    } else {
      var w, rest := ws[0], if |ws| == 1 then "" else " " + Join(ws[1..]);
      FirstOfToken(w);
      TokensStep(w + rest, false);
      assert (w + rest)[0] == w[0];
      RestOfToken(w, rest, 1);
      if |ws| > 1 {
        assert rest[1..] == Join(ws[1..]);
        TokensOfJoined(ws[1..]);
        assert ws == [w] + ws[1..];
      } else {
        assert ws == [w];
      }
    }
  }

  // ---- Where a line is cut ----

  predicate AllSpace(s: string) {
    forall i :: 0 <= i < |s| ==> IsSpace(s[i])
  }

  /** Room around the tokens: any spaces before the first and behind the last, at least one between two. */
  predicate AreGaps(ws: seq<string>, gaps: seq<string>) {
    && |gaps| == |ws| + 1
    && (forall i :: 0 <= i < |gaps| ==> AllSpace(gaps[i]))
    && forall i :: 0 < i < |ws| ==> gaps[i] != ""
  }

  /** The tokens with their room. */
  function Spread(ws: seq<string>, gaps: seq<string>): string
    requires |gaps| == |ws| + 1
  {
    if ws == [] then gaps[0] else gaps[0] + (ws[0] + Spread(ws[1..], gaps[1..]))
  }

  lemma {:induction false} SkipGap(gap: string, s: string)
    requires AllSpace(gap)
    ensures Tokens(gap + s, false) == Tokens(s, false)
  {
    if gap == "" {
      assert gap + s == s;
    } else {
      assert (gap + s)[1..] == gap[1..] + s;
      TokensStep(gap + s, false);
      SkipGap(gap[1..], s);
    }
  }

  lemma RoomBehind(ws: seq<string>, gaps: seq<string>)
    requires AreGaps(ws, gaps) && ws != []
    ensures AreGaps(ws[1..], gaps[1..])
    ensures var r := Spread(ws[1..], gaps[1..]);
      (r == "" ==> ws[1..] == []) && (r != "" ==> IsSpace(r[0]))
  {
    var r := Spread(ws[1..], gaps[1..]);
    assert AllSpace(gaps[1]);
  }

  /** Tokens with any room around them are lexed to those tokens. */
  lemma {:induction false} TokensOfSpread(ws: seq<string>, gaps: seq<string>)
    requires AreTokens(ws) && AreGaps(ws, gaps)
    ensures Tokens(Spread(ws, gaps), false) == Some(ws)
  {
    hide Rest, IsToken, Parity, Tokens;
    if ws == [] {
      assert gaps[0] + "" == gaps[0];
      SkipGap(gaps[0], "");
      TokensStep("", false);
    } else {
      var w, rest := ws[0], Spread(ws[1..], gaps[1..]);
      RoomBehind(ws, gaps);
      TokensOfSpread(ws[1..], gaps[1..]);
      SkipGap(gaps[0], w + rest);
      OneToken(w, rest);
      assert ws == [w] + ws[1..];
    }
  }

  lemma OneToken(w: string, rest: string)
    requires IsToken(w) && (rest != "" ==> IsSpace(rest[0]))
    ensures Tokens(w + rest, false) == Cons(w, Tokens(rest, false))
  {
    hide Rest, IsToken, Parity, Tokens;
    FirstOfToken(w);
    TokensStep(w + rest, false);
    assert (w + rest)[0] == w[0];
    RestOfToken(w, rest, 1);
    TokensStep(rest, false);
    assert [w] + [] == [w];
  }

  /** Every plain line that lexes is its tokens with room around them. */
  lemma {:induction false} GapsOf(s: string) returns (gaps: seq<string>)
    requires Plain(s) && Tokens(s, false).Some?
    ensures AreGaps(Tokens(s, false).value, gaps) && s == Spread(Tokens(s, false).value, gaps)
    decreases |s|, |s| + 1
  {
    hide Rest, Tokens;
    TokensStep(s, false);
    if s == "" {
      gaps := [""];
    } else if IsSpace(s[0]) {
      var g := GapsOf(s[1..]);
      gaps := [[s[0]] + g[0]] + g[1..];
      MoreRoom(Tokens(s, false).value, g, [s[0]]);
    } else {
      gaps := GapsOfRest(s, 1, s[0] == '"');
    }
  }

  lemma {:induction false} GapsOfRest(s: string, k: nat, q: bool) returns (gaps: seq<string>)
    requires 1 <= k <= |s| && Plain(s) && Rest(s, k, q).Some?
    ensures AreGaps(Rest(s, k, q).value, gaps) && s == Spread(Rest(s, k, q).value, gaps)
    decreases |s|, |s| - k
  {
    hide Rest, Tokens, Spread, AllSpace;
    RestStep(s, k, q);
    if k == |s| {
      gaps := ["", ""];
      LoneWord(s);
    } else if IsGraph(s[k]) || q {
      gaps := GapsOfRest(s, k + 1, Toggled(s[k], q));
    } else {
      var ws := Tokens(s[k + 1..], false).value;
      var g := GapsOf(s[k + 1..]);
      var h := [[s[k]] + g[0]] + g[1..];
      OneSpace(s[k]);
      MoreRoom(ws, g, [s[k]]);
      gaps := [""] + h;
      WordInFront(s[..k], ws, h);
      assert s == s[..k] + ([s[k]] + s[k + 1..]);
    }
  }

  lemma LoneWord(s: string)
    ensures AreGaps([s], ["", ""]) && Spread([s], ["", ""]) == s
  {
    assert [s][1..] == [] && ["", ""][1..] == [""];
    assert s == "" + (s + "");
  }

  lemma OneSpace(c: char)
    requires IsSpace(c)
    ensures AllSpace([c])
  {
  }

  lemma MoreRoom(ws: seq<string>, g: seq<string>, space: string)
    requires AreGaps(ws, g) && AllSpace(space)
    ensures var h := [space + g[0]] + g[1..];
      AreGaps(ws, h) && Spread(ws, h) == space + Spread(ws, g) && h[0] == space + g[0]
  {
    var h := [space + g[0]] + g[1..];
    assert AllSpace(g[0]);
    assert forall i :: 0 < i < |h| ==> h[i] == g[i];
    if ws != [] {
      assert h[1..] == g[1..];
    }
  }

  lemma WordInFront(w: string, ws: seq<string>, h: seq<string>)
    requires AreGaps(ws, h) && h[0] != ""
    ensures AreGaps([w] + ws, [""] + h) && Spread([w] + ws, [""] + h) == w + Spread(ws, h)
  {
    var g := [""] + h;
    assert forall i :: 0 < i < |g| ==> g[i] == h[i - 1];
    assert ([w] + ws)[1..] == ws && g[1..] == h;
  }

  /** A plain line lexes to a list exactly when it is these tokens with spaces around and between them. */
  lemma CutIff(line: string, ws: seq<string>)
    requires Plain(line)
    ensures Tokens(line, false) == Some(ws) <==>
      AreTokens(ws) && exists gaps :: AreGaps(ws, gaps) && line == Spread(ws, gaps)
  {
    hide Tokens, IsToken, Spread, AllSpace;
    if Tokens(line, false) == Some(ws) {
      TokensOfLine(line);
      var gaps := GapsOf(line);
    }
    if AreTokens(ws) {
      forall gaps | AreGaps(ws, gaps) && line == Spread(ws, gaps)
        ensures Tokens(line, false) == Some(ws)
      {
        TokensOfSpread(ws, gaps);
      }
    }
  }

  /** So lexing a plain line, joining the tokens and lexing again is lexing once. */
  lemma LexingIsStable(line: string)
    requires Plain(line) && Tokens(line, false).Some?
    ensures Tokens(Join(Tokens(line, false).value), false) == Tokens(line, false)
  {
    TokensOfLine(line);
    TokensOfJoined(Tokens(line, false).value);
  }
}
