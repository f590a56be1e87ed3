/**
 * The two <string.h> routines the command-line parser of smallsh relies on:
 * `strcmp`, and `strtok` called with the one-character delimiter string " ".
 *
 * A C string is modelled as the sequence of its characters before the
 * terminating NUL. strtok's hidden static cursor is modelled as the suffix of
 * the line that it has not consumed yet: one call takes that suffix and gives
 * back the next token together with the new suffix.
 */
module CString {

  /** The only delimiter the parser passes to strtok. */
  const Space: char := ' '

  /**
   * strcmp: the sign of the first difference, comparing characters as
   * unsigned codes; a string that ends first compares below the other one
   * (its terminating NUL is smaller than any character). C only promises
   * the sign, so the model returns -1, 0 or 1.
   */
  function Strcmp(a: string, b: string): (r: int)
    ensures r == 0 <==> a == b
    ensures -1 <= r <= 1
  {
    if a == [] && b == [] then 0
    else if a == [] then -1
    else if b == [] then 1
    else if a[0] < b[0] then -1
    else if a[0] > b[0] then 1
    else Strcmp(a[1..], b[1..])
  }

  /** A token strtok can return: non-empty and free of the delimiter. */
  predicate Word(t: string) {
    t != [] && forall i :: 0 <= i < |t| ==> t[i] != Space
  }

  /** `k` delimiter characters. */
  function Spaces(k: nat): (s: string)
    ensures |s| == k
    ensures forall i :: 0 <= i < k ==> s[i] == Space
  {
    if k == 0 then [] else [Space] + Spaces(k - 1)
  }

  /**
   * The word that starts `s` and what strtok resumes on after it: the word
   * runs up to the first delimiter, which is overwritten with NUL and
   * skipped, or up to the end of the string when there is none.
   */
  function TakeWord(s: string): (p: (string, string))
    ensures |p.0| + |p.1| <= |s|
    ensures s != [] ==> |p.1| < |s|
    ensures s != [] && s[0] != Space ==> p.0 != [] && p.0[0] == s[0]
    ensures forall i :: 0 <= i < |p.0| ==> p.0[i] != Space
  {
    if s == [] then ([], [])
    else if s[0] == Space then ([], s[1..])
    else
      var (w, r) := TakeWord(s[1..]);
      ([s[0]] + w, r)
  }

  /** What one call of strtok yields: NULL, or a token and the unconsumed rest. */
  datatype Scan = End | Found(token: string, rest: string)

  /**
   * One call of strtok(_, " ") on the unconsumed suffix `s`: skip the leading
   * delimiters; if nothing is left the result is NULL; otherwise the token is
   * the word that starts there.
   */
  function NextToken(s: string): (c: Scan)
    ensures c.End? <==> forall i :: 0 <= i < |s| ==> s[i] == Space
    ensures c.Found? ==> Word(c.token) && |c.rest| < |s|
  {
    if s == [] then End
    else if s[0] == Space then
      var c := NextToken(s[1..]);
      assert forall i :: 0 < i < |s| ==> s[i] == s[1..][i - 1];
      c
    else Found(TakeWord(s).0, TakeWord(s).1)
  }

  /** The tokens that successive strtok calls return, starting on `s`. */
  function Split(s: string): (tokens: seq<string>)
    ensures forall i :: 0 <= i < |tokens| ==> Word(tokens[i])
    decreases |s|
  {
    match NextToken(s)
    case End => []
    case Found(t, r) => [t] + Split(r)
  }

  /**
   * A reference description of a line by its words: `gaps[0]` delimiters,
   * the first word, `gaps[1]` delimiters, the second word, ..., and
   * `gaps[|words|]` trailing delimiters.
   */
  function Layout(gaps: seq<nat>, words: seq<string>): string
    requires |gaps| == |words| + 1
    decreases words
  {
    if words == [] then Spaces(gaps[0])
    else Spaces(gaps[0]) + words[0] + Layout(gaps[1..], words[1..])
  }

  /** Words that are non-empty and delimiter-free, with at least one delimiter between neighbours. */
  predicate Separated(gaps: seq<nat>, words: seq<string>) {
    && |gaps| == |words| + 1
    && (forall i :: 0 < i < |words| ==> gaps[i] >= 1)
    && (forall i :: 0 <= i < |words| ==> Word(words[i]))
  }

  /** A word followed by the end of the line or by a delimiter is taken whole. */
  lemma {:induction false} TakeWordOfWord(t: string, tail: string)
    requires forall i :: 0 <= i < |t| ==> t[i] != Space
    requires tail == [] || tail[0] == Space
    ensures TakeWord(t + tail) == (t, if tail == [] then [] else tail[1..])
  {
    if t != [] {
      assert (t + tail)[1..] == t[1..] + tail;
      TakeWordOfWord(t[1..], tail);
      assert [t[0]] + t[1..] == t;
    } else {
      assert t + tail == tail;
    }
  }

  /** strtok returns a word that follows some delimiters and ends at a delimiter or at the end of the line. */
  lemma {:induction false} NextTokenOfPadded(k: nat, t: string, tail: string)
    requires Word(t)
    requires tail == [] || tail[0] == Space
    ensures NextToken(Spaces(k) + t + tail) == Found(t, if tail == [] then [] else tail[1..])
  {
    var s := Spaces(k) + t + tail;
    if k == 0 {
      assert s == t + tail;
      TakeWordOfWord(t, tail);
    } else {
      assert s[0] == Space;
      assert s[1..] == Spaces(k - 1) + t + tail;
      NextTokenOfPadded(k - 1, t, tail);
    }
  }

  /** What TakeWord splits off: the word, then either nothing or one delimiter and the rest. */
  lemma {:induction false} TakeWordShape(s: string)
    ensures var (w, r) := TakeWord(s);
      || (r == [] && s == w)
      || s == w + ([Space] + r)
  {
    if s != [] && s[0] != Space {
      TakeWordShape(s[1..]);
      var (w, r) := TakeWord(s[1..]);
      assert s == [s[0]] + s[1..];
      if r == [] && s[1..] == w {
      } else {
        assert s == [s[0]] + w + ([Space] + r);
      }
    } else if s != [] {
      assert s == [] + ([Space] + s[1..]);
    }
  }

  /** A delimiter in front of a layout widens its first gap. */
  lemma {:induction false} ConsSpace(gaps: seq<nat>, words: seq<string>)
    requires |gaps| == |words| + 1
    ensures [Space] + Layout(gaps, words) == Layout([gaps[0] + 1] + gaps[1..], words)
  {
    var g := [gaps[0] + 1] + gaps[1..];
    assert g[0] == gaps[0] + 1 && g[1..] == gaps[1..];
    assert Spaces(g[0]) == [Space] + Spaces(gaps[0]);
    if words != [] {
      var w, rest := words[0], Layout(gaps[1..], words[1..]);
      assert Layout(g, words) == Spaces(g[0]) + w + rest;
      assert Layout(gaps, words) == Spaces(gaps[0]) + w + rest;
      assert [Space] + (Spaces(gaps[0]) + w + rest) == ([Space] + Spaces(gaps[0])) + w + rest;
    }
  }

  /** Dropping the first delimiter of a layout narrows its first gap. */
  lemma {:induction false} DropSpace(gaps: seq<nat>, words: seq<string>)
    requires |gaps| == |words| + 1 && gaps[0] >= 1
    ensures Layout(gaps, words)[1..] == Layout([gaps[0] - 1] + gaps[1..], words)
  {
    var g := [gaps[0] - 1] + gaps[1..];
    ConsSpace(g, words);
    assert [g[0] + 1] + g[1..] == gaps;
  }

  /** Splitting a layout of separated words gives back exactly those words. */
  lemma {:induction false} SplitLayout(gaps: seq<nat>, words: seq<string>)
    requires Separated(gaps, words)
    ensures Split(Layout(gaps, words)) == words
    decreases words
  {
    if words == [] {
      assert NextToken(Spaces(gaps[0])).End?;
    } else {
      var tail := Layout(gaps[1..], words[1..]);
      assert Layout(gaps, words) == Spaces(gaps[0]) + words[0] + tail;
      if words[1..] != [] {
        assert gaps[1] >= 1;
        assert tail[0] == Space;
      } else if gaps[1] > 0 {
        assert tail[0] == Space;
      }
      NextTokenOfPadded(gaps[0], words[0], tail);
      var rest := if tail == [] then [] else tail[1..];
      var g := [if gaps[1] > 0 then gaps[1] - 1 else 0] + gaps[2..];
      if gaps[1] > 0 {
        DropSpace(gaps[1..], words[1..]);
        assert [gaps[1..][0] - 1] + gaps[1..][1..] == g;
      } else {
        assert words[1..] == [];
        assert tail == [];
      }
      assert rest == Layout(g, words[1..]);
      SplitLayout(g, words[1..]);
    }
  }

  /**
   * The shape of a line on which strtok finds a token: `k` delimiters, the
   * token, and then either the end of the line or one delimiter followed by
   * the unconsumed rest.
   */
  predicate Shaped(s: string, k: nat, c: Scan)
    requires c.Found?
  {
    || (c.rest == [] && s == Spaces(k) + c.token)
    || s == Spaces(k) + c.token + ([Space] + c.rest)
  }

  lemma {:induction false} FoundShape(s: string) returns (k: nat)
    requires NextToken(s).Found?
    ensures Shaped(s, k, NextToken(s))
  {
    var c := NextToken(s);
    if s[0] == Space {
      assert NextToken(s[1..]) == c;
      var k' := FoundShape(s[1..]);
      k := k' + 1;
      assert Shaped(s, k, c) by {
        var tail: string := if c.rest == [] && s[1..] == Spaces(k') + c.token then [] else [Space] + c.rest;
        assert s[1..] == Spaces(k') + c.token + tail;
        assert s == [Space] + s[1..];
        PadOne(k', c.token, tail);
        assert tail == [] ==> Spaces(k) + c.token + tail == Spaces(k) + c.token;
      }
    } else {
      k := 0;
      assert Shaped(s, k, c) by {
        TakeWordShape(s);
        assert Spaces(0) + c.token == c.token;
      }
    }
  }

  /** One more delimiter in front of a padded word widens the padding. */
  lemma {:induction false} PadOne(k: nat, t: string, tail: string)
    ensures [Space] + (Spaces(k) + t + tail) == Spaces(k + 1) + t + tail
  {
    assert Spaces(k + 1) == [Space] + Spaces(k);
  }

  /** Extends a layout of the rest to a layout of the line, across the one delimiter strtok consumed. */
  lemma {:induction false} LayoutAcrossDelimiter(k: nat, t: string, g: seq<nat>, words: seq<string>)
    requires Word(t) && Separated(g, words)
    ensures var gaps := [k] + ([g[0] + 1] + g[1..]);
      Separated(gaps, [t] + words) && Layout(gaps, [t] + words) == Spaces(k) + t + ([Space] + Layout(g, words))
  {
    var gaps := [k] + ([g[0] + 1] + g[1..]);
    var all := [t] + words;
    ConsSpace(g, words);
    assert gaps[1..] == [g[0] + 1] + g[1..];
    assert all[1..] == words;
    forall i | 0 < i < |all| ensures gaps[i] >= 1 {
      if i > 1 { assert gaps[i] == g[i - 1]; }
    }
    forall i | 0 <= i < |all| ensures Word(all[i]) {
      if i > 0 { assert all[i] == words[i - 1]; }
    }
  }

  /** Every line is a layout of its own tokens; `gaps` are the delimiter runs around them. */
  lemma {:induction false} LayoutOfSplit(s: string) returns (gaps: seq<nat>)
    ensures Separated(gaps, Split(s)) && Layout(gaps, Split(s)) == s
    decreases |s|
  {
    match NextToken(s)
    case End =>
      assert s == Spaces(|s|);
      gaps := [|s|];
    case Found(t, r) =>
      var k := FoundShape(s);
      var g := LayoutOfSplit(r);
      if s == Spaces(k) + t + ([Space] + r) {
        LayoutAcrossDelimiter(k, t, g, Split(r));
        gaps := [k] + ([g[0] + 1] + g[1..]);
      } else {
        assert r == [] && Split(r) == [];
        assert Layout([k, 0], [t]) == Spaces(k) + t + Spaces(0);
        gaps := [k, 0];
      }
  }

  /**
   * The tokens strtok produces are exactly the maximal runs of non-delimiter
   * characters, in order: Split(s) is a given word list precisely when `s` is
   * a layout of those words.
   */
  lemma {:induction false} SplitCharacterization(s: string, words: seq<string>)
    ensures Split(s) == words <==> exists gaps :: Separated(gaps, words) && Layout(gaps, words) == s
  {
    var own := LayoutOfSplit(s);
    if exists gaps :: Separated(gaps, words) && Layout(gaps, words) == s {
      var gaps :| Separated(gaps, words) && Layout(gaps, words) == s;
      SplitLayout(gaps, words);
    }
  }

  /** Two layouts joined form one layout whose junction gap is the sum of the two touching gaps. */
  lemma {:induction false} LayoutAppend(g1: seq<nat>, w1: seq<string>, g2: seq<nat>, w2: seq<string>)
    requires |g1| == |w1| + 1 && |g2| == |w2| + 1
    ensures Layout(g1, w1) + Layout(g2, w2)
         == Layout(g1[..|w1|] + [g1[|w1|] + g2[0]] + g2[1..], w1 + w2)
    decreases w1
  {
    var g := g1[..|w1|] + [g1[|w1|] + g2[0]] + g2[1..];
    if w1 == [] {
      assert w1 + w2 == w2 && g == [g1[0] + g2[0]] + g2[1..];
      WidenFirstGap(g1[0], g2, w2);
    } else {
      var g1', w1' := g1[1..], w1[1..];
      var h := g1'[..|w1'|] + [g1'[|w1'|] + g2[0]] + g2[1..];
      LayoutAppend(g1', w1', g2, w2);
      assert g[0] == g1[0] && g[1..] == h by {
        assert g1[..|w1|] == [g1[0]] + g1'[..|w1'|];
        assert g == [g1[0]] + h;
      }
      assert (w1 + w2)[0] == w1[0] && (w1 + w2)[1..] == w1' + w2 by {
        assert w1 + w2 == [w1[0]] + (w1' + w2);
      }
      calc {
        Layout(g1, w1) + Layout(g2, w2);
        (Spaces(g1[0]) + w1[0] + Layout(g1', w1')) + Layout(g2, w2);
        Spaces(g1[0]) + w1[0] + (Layout(g1', w1') + Layout(g2, w2));
        Spaces(g1[0]) + w1[0] + Layout(h, w1' + w2);
        Layout(g, w1 + w2);
      }
    }
  }

  /** Delimiters in front of a layout widen its first gap by as many. */
  lemma {:induction false} WidenFirstGap(j: nat, gaps: seq<nat>, words: seq<string>)
    requires |gaps| == |words| + 1
    ensures Spaces(j) + Layout(gaps, words) == Layout([j + gaps[0]] + gaps[1..], words)
  {
    var g := [j + gaps[0]] + gaps[1..];
    SpacesAppend(j, gaps[0]);
    assert g[0] == j + gaps[0] && g[1..] == gaps[1..];
    if words != [] {
      calc {
        Spaces(j) + Layout(gaps, words);
        Spaces(j) + (Spaces(gaps[0]) + words[0] + Layout(gaps[1..], words[1..]));
        Spaces(g[0]) + words[0] + Layout(g[1..], words[1..]);
      }
    }
  }

  lemma {:induction false} SpacesAppend(j: nat, k: nat)
    ensures Spaces(j + k) == Spaces(j) + Spaces(k)
  {
    if j > 0 {
      SpacesAppend(j - 1, k);
    }
  }

  /** Two layouts joined by one delimiter form one layout of both word lists. */
  lemma {:induction false} JoinLayouts(ga: seq<nat>, wa: seq<string>, gb: seq<nat>, wb: seq<string>) returns (g: seq<nat>)
    requires Separated(ga, wa) && Separated(gb, wb)
    ensures Separated(g, wa + wb)
    ensures Layout(g, wa + wb) == Layout(ga, wa) + [Space] + Layout(gb, wb)
  {
    ConsSpace(gb, wb);
    var gb' := [gb[0] + 1] + gb[1..];
    LayoutAppend(ga, wa, gb', wb);
    var na := |wa|;
    g := ga[..na] + [ga[na] + gb'[0]] + gb'[1..];
    var words := wa + wb;
    assert Layout(ga, wa) + [Space] + Layout(gb, wb) == Layout(ga, wa) + ([Space] + Layout(gb, wb));
    forall i | 0 < i < |words| ensures g[i] >= 1 {
      if i < na {
        assert g[i] == ga[i];
      } else if i > na {
        assert g[i] == gb[i - na];
      }
    }
    forall i | 0 <= i < |words| ensures Word(words[i]) {
      if i >= na {
        assert words[i] == wb[i - na];
      }
    }
  }

  /**
   * Only the delimiter separates tokens: two pieces of text joined by one
   * delimiter split into the tokens of the first followed by those of the
   * second; no token spans the join.
   */
  lemma {:induction false} SplitAppend(a: string, b: string)
    ensures Split(a + [Space] + b) == Split(a) + Split(b)
  {
    var ga := LayoutOfSplit(a);
    var gb := LayoutOfSplit(b);
    var g := JoinLayouts(ga, Split(a), gb, Split(b));
    SplitLayout(g, Split(a) + Split(b));
  }
}
