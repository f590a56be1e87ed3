/**
 * The line tokenizer and classifier in the prompt loop of smallsh's `main`.
 *
 * One input line is cut into tokens by repeated strtok(_, " ") calls. If the
 * first token is exactly "#" the line is skipped. Otherwise every token except
 * a stand-alone "\n" is stored in the 512-slot `arguments` array and counted
 * in both `index` and `total_args`, and three markers are updated along the
 * way: `infile_index`, `outfile_index` and `background`.
 *
 * The marker tests are written `if (strcmp(arg, "<"))`. strcmp is non-zero
 * when the strings DIFFER, so each test fires on every token that is not the
 * operator. The model keeps that behaviour, because it is what the program
 * computes. `Intended` states what the comments in the source ask for.
 */
module Smallsh {
  import opened CString

  /** Number of slots in `char* arguments[512]`. */
  const MaxArgs: nat := 512

  const Newline: string := "\n"
  const CommentMark: string := "#"
  const InputRedirect: string := "<"
  const OutputRedirect: string := ">"
  const BackgroundMark: string := "&"

  /** The two ways the parse has undefined behaviour in C. */
  datatype Fault =
    | NullToken          // the line has no token: strcmp(NULL, "#") is called
    | ArgumentsOverflow  // a 513th stored token would be written to arguments[512]

  /** What one pass over a line leaves behind. */
  datatype Outcome =
    | Skipped  // the first token is "#": `continue` before the loop
    | Parsed(index: int, totalArgs: int, infileIndex: int, outfileIndex: int, background: int)
    | Undefined(fault: Fault)

  /** The tokens the loop stores: all except those exactly equal to "\n", in order. */
  function Kept(tokens: seq<string>): (kept: seq<string>)
    ensures |kept| <= |tokens|
    ensures forall i :: 0 <= i < |kept| ==> kept[i] != Newline
  {
    if tokens == [] then []
    else (if tokens[0] == Newline then [] else [tokens[0]]) + Kept(tokens[1..])
  }

  lemma {:induction false} KeptAppend(a: seq<string>, b: seq<string>)
    ensures Kept(a + b) == Kept(a) + Kept(b)
  {
    if a == [] {
      assert a + b == b;
    } else {
      assert (a + b)[0] == a[0];
      assert (a + b)[1..] == a[1..] + b;
      KeptAppend(a[1..], b);
    }
  }

  lemma {:induction false} KeptOne(t: string)
    ensures Kept([t]) == if t == Newline then [] else [t]
  {
    assert [t][1..] == [];
  }

  /** A token is stored exactly when it occurs in the line and is not "\n". */
  lemma {:induction false} KeptMembers(tokens: seq<string>)
    ensures forall t :: t in Kept(tokens) <==> t in tokens && t != Newline
  {
    if tokens != [] {
      KeptMembers(tokens[1..]);
      assert tokens == [tokens[0]] + tokens[1..];
    }
  }

  /** Tokens other than "\n" are all stored, in input order, nothing stripped. */
  lemma {:induction false} KeptKeepsOthers(tokens: seq<string>)
    requires forall i :: 0 <= i < |tokens| ==> tokens[i] != Newline
    ensures Kept(tokens) == tokens
  {
    if tokens != [] {
      KeptKeepsOthers(tokens[1..]);
    }
  }

  /**
   * Whether a marker test fires on a token. As written the test is
   * `strcmp(tok, op) != 0`, true when the token differs from `op`
   * (`onEqual` false); the test the comments describe fires when the token
   * is `op` (`onEqual` true).
   */
  predicate Fires(tok: string, op: string, onEqual: bool) {
    (tok == op) == onEqual
  }

  /**
   * The value a marker ends with after a run over `kept`, starting from -1
   * and set to `index + 1` at each token its test fires on.
   */
  function MarkerAfter(kept: seq<string>, op: string, onEqual: bool): (m: int)
    ensures m == -1 || 1 <= m <= |kept|
    decreases |kept|
  {
    if kept == [] then -1
    else if Fires(kept[|kept| - 1], op, onEqual) then |kept|
    else MarkerAfter(kept[..|kept| - 1], op, onEqual)
  }

  /** Whether the test fires on some token of `kept`. */
  predicate SomeFires(kept: seq<string>, op: string, onEqual: bool) {
    exists i :: 0 <= i < |kept| && Fires(kept[i], op, onEqual)
  }

  /**
   * A marker is one past the position of the last token its test fires on,
   * and -1 exactly when the test fires on no token.
   */
  lemma {:induction false} MarkerIsLastFiring(kept: seq<string>, op: string, onEqual: bool)
    ensures var m := MarkerAfter(kept, op, onEqual);
      && (m == -1 <==> !SomeFires(kept, op, onEqual))
      && (m != -1 ==> Fires(kept[m - 1], op, onEqual))
      && (m != -1 ==> forall j :: m <= j < |kept| ==> !Fires(kept[j], op, onEqual))
    decreases |kept|
  {
    if kept != [] {
      var init := kept[..|kept| - 1];
      MarkerIsLastFiring(init, op, onEqual);
      if !Fires(kept[|kept| - 1], op, onEqual) {
        if SomeFires(kept, op, onEqual) {
          var i :| 0 <= i < |kept| && Fires(kept[i], op, onEqual);
          assert init[i] == kept[i];
        }
        if SomeFires(init, op, onEqual) {
          var i :| 0 <= i < |init| && Fires(init[i], op, onEqual);
          assert kept[i] == init[i];
        }
      }
    }
  }

  /** One more token extends a marker's run. */
  lemma {:induction false} MarkerStep(kept: seq<string>, tok: string, op: string, onEqual: bool)
    ensures MarkerAfter(kept + [tok], op, onEqual)
         == if Fires(tok, op, onEqual) then |kept| + 1 else MarkerAfter(kept, op, onEqual)
  {
    assert (kept + [tok])[..|kept|] == kept;
  }

  /** One more token extends the background test. */
  lemma {:induction false} SomeFiresStep(kept: seq<string>, tok: string, op: string, onEqual: bool)
    ensures SomeFires(kept + [tok], op, onEqual) == (SomeFires(kept, op, onEqual) || Fires(tok, op, onEqual))
  {
    var all := kept + [tok];
    if Fires(tok, op, onEqual) {
      assert all[|kept|] == tok;
    }
    if SomeFires(kept, op, onEqual) {
      var i :| 0 <= i < |kept| && Fires(kept[i], op, onEqual);
      assert all[i] == kept[i];
    }
    if SomeFires(all, op, onEqual) && !Fires(tok, op, onEqual) {
      var i :| 0 <= i < |all| && Fires(all[i], op, onEqual);
      assert kept[i] == all[i];
    }
  }

  /** The state after the loop has run over the stored tokens `kept`. */
  function Classified(kept: seq<string>, onEqual: bool): Outcome {
    Parsed(|kept|, |kept|,
           MarkerAfter(kept, InputRedirect, onEqual),
           MarkerAfter(kept, OutputRedirect, onEqual),
           if SomeFires(kept, BackgroundMark, onEqual) then 1 else 0)
  }

  /** What ends up in `arguments[0..]` for a line with these tokens: the stored tokens, up to the array's capacity. */
  function Stored(tokens: seq<string>): (stored: seq<string>)
    ensures |stored| <= MaxArgs
    ensures forall i :: 0 <= i < |stored| ==> stored[i] != Newline
  {
    if tokens == [] || tokens[0] == CommentMark then []
    else
      var kept := Kept(tokens);
      if |kept| > MaxArgs then kept[..MaxArgs] else kept
  }

  /** The outcome of the code as written on a line with these tokens. */
  function Expected(tokens: seq<string>): (o: Outcome)
    ensures o.Parsed? ==> o.index == o.totalArgs == |Stored(tokens)|
    ensures o.Parsed? ==> -1 <= o.infileIndex <= o.totalArgs && o.infileIndex != 0
    ensures o.Parsed? ==> -1 <= o.outfileIndex <= o.totalArgs && o.outfileIndex != 0
    ensures o.Parsed? ==> o.background == 0 || o.background == 1
    ensures o.Skipped? || o == Undefined(NullToken) ==> Stored(tokens) == []
    ensures o == Undefined(ArgumentsOverflow) ==> |Stored(tokens)| == MaxArgs
  {
    if tokens == [] then Undefined(NullToken)
    else if tokens[0] == CommentMark then Skipped
    else
      var kept := Kept(tokens);
      if |kept| > MaxArgs then Undefined(ArgumentsOverflow)
      else Classified(kept, false)
  }

  /** The loop's view of the tokens: one more token visited, at most one more stored. */
  lemma {:induction false} KeptStep(tokens: seq<string>, i: nat)
    requires i < |tokens|
    ensures Kept(tokens[..i + 1]) == Kept(tokens[..i]) + (if tokens[i] == Newline then [] else [tokens[i]])
  {
    assert tokens[..i + 1] == tokens[..i] + [tokens[i]];
    KeptAppend(tokens[..i], [tokens[i]]);
    KeptOne(tokens[i]);
  }

  /** What one more stored token does to the counters and the three markers, as written. */
  lemma {:induction false} ClassifiedStep(stored: seq<string>, arg: string)
    ensures var o := Classified(stored, false);
      Classified(stored + [arg], false)
      == Parsed(|stored| + 1, |stored| + 1,
                if arg != InputRedirect then |stored| + 1 else o.infileIndex,
                if arg != OutputRedirect then |stored| + 1 else o.outfileIndex,
                if arg != BackgroundMark then 1 else o.background)
  {
    MarkerStep(stored, arg, InputRedirect, false);
    MarkerStep(stored, arg, OutputRedirect, false);
    SomeFiresStep(stored, arg, BackgroundMark, false);
  }

  /** Storing into the first untouched slot extends the stored prefix by one. */
  lemma {:induction false} StoreStep(slots: seq<string>, kept: seq<string>, before: seq<string>, x: string)
    requires |kept| < |before| == |slots| && slots == kept + before[|kept|..]
    ensures slots[|kept| := x] == (kept + [x]) + before[|kept| + 1..]
  {
  }

  /** A 513th stored token: the line overflows, and the first 512 stored tokens are those seen so far. */
  lemma {:induction false} OverflowOutcome(tokens: seq<string>, i: nat)
    requires i < |tokens| && tokens[0] != CommentMark
    requires tokens[i] != Newline && |Kept(tokens[..i])| == MaxArgs
    ensures Expected(tokens) == Undefined(ArgumentsOverflow)
    ensures Stored(tokens) == Kept(tokens[..i])
  {
    assert tokens == tokens[..i] + [tokens[i]] + tokens[i + 1..];
    KeptOne(tokens[i]);
    KeptAppend(tokens[..i], [tokens[i]]);
    KeptAppend(tokens[..i] + [tokens[i]], tokens[i + 1..]);
    var kept := Kept(tokens);
    assert kept == Kept(tokens[..i]) + [tokens[i]] + Kept(tokens[i + 1..]);
    assert kept[..MaxArgs] == Kept(tokens[..i]);
  }

  /**
   * The body of the prompt loop from `int index = 0` up to the end of the
   * `while (arg)` loop, on the line `getline` returned. The array stands for
   * `arguments`; slots past the stored tokens keep whatever they held.
   */
  method ParseLine(line: string, arguments: array<string>) returns (outcome: Outcome)
    requires arguments.Length == MaxArgs
    modifies arguments
    ensures outcome == Expected(Split(line))
    ensures arguments[..] == Stored(Split(line)) + old(arguments[..])[|Stored(Split(line))|..]
  {
    var index := 0;
    var totalArgs := 0;
    var infileIndex := -1;
    var outfileIndex := -1;
    var background := 0;
    var tokens := Split(line);
    if |tokens| == 0 {
      return Undefined(NullToken);
    }
    if Strcmp(tokens[0], CommentMark) == 0 {
      return Skipped;
    }
    ghost var stored: seq<string> := [];
    ghost var before := arguments[..];
    var i := 0;
    while i < |tokens|
      invariant 0 <= i <= |tokens|
      invariant stored == Kept(tokens[..i])
      invariant index == totalArgs == |stored| <= MaxArgs
      invariant before == old(arguments[..])
      invariant arguments[..] == stored + before[index..]
      invariant Parsed(index, totalArgs, infileIndex, outfileIndex, background) == Classified(stored, false)
    {
      var arg := tokens[i];
      if Strcmp(arg, Newline) != 0 {
        assert Kept(tokens[..i + 1]) == stored + [arg] by {
          KeptStep(tokens, i);
        }
        ClassifiedStep(stored, arg);
        infileIndex := if Strcmp(arg, InputRedirect) != 0 then index + 1 else infileIndex;
        outfileIndex := if Strcmp(arg, OutputRedirect) != 0 then index + 1 else outfileIndex;
        background := if Strcmp(arg, BackgroundMark) != 0 then 1 else background;
        if index == MaxArgs {
          // arguments[index] would lie past the end of the array
          OverflowOutcome(tokens, i);
          return Undefined(ArgumentsOverflow);
        }
        ghost var slots := arguments[..];
        arguments[index] := arg;
        assert arguments[..] == slots[index := arg];
        StoreStep(slots, stored, before, arg);
        index := index + 1;
        totalArgs := totalArgs + 1;
        stored := stored + [arg];
      } else {
        assert Kept(tokens[..i + 1]) == stored by {
          KeptStep(tokens, i);
          assert stored + [] == stored;
        }
      }
      i := i + 1;
    }
    assert Expected(tokens) == Classified(stored, false) && Stored(tokens) == stored by {
      assert tokens[..i] == tokens;
    }
    return Parsed(index, totalArgs, infileIndex, outfileIndex, background);
  }

  /**
   * With the test inverted, a marker ends one past the last token that is
   * not the operator, and is -1 only when every token is the operator.
   */
  lemma {:induction false} InvertedMarker(s: seq<string>, op: string)
    ensures var m := MarkerAfter(s, op, false);
      && (m == -1 <==> forall i :: 0 <= i < |s| ==> s[i] == op)
      && (m != -1 ==> s[m - 1] != op)
      && (m != -1 ==> forall j :: m <= j < |s| ==> s[j] == op)
  {
    MarkerIsLastFiring(s, op, false);
    var m := MarkerAfter(s, op, false);
    if m == -1 {
      forall i | 0 <= i < |s| ensures s[i] == op {
        assert !Fires(s[i], op, false);
      }
    } else {
      forall j | m <= j < |s| ensures s[j] == op {
        assert !Fires(s[j], op, false);
      }
      assert exists i :: 0 <= i < |s| && s[i] != op;
    }
  }

  /**
   * As written, `infile_index` ends one past the last stored token that is
   * not "<", and is -1 only when every stored token is "<"; `outfile_index`
   * behaves the same for ">"; `background` is 1 exactly when some stored
   * token is not "&".
   */
  lemma {:induction false} ParsedMarkers(tokens: seq<string>)
    requires Expected(tokens).Parsed?
    ensures var o, s := Expected(tokens), Stored(tokens);
      && (o.infileIndex == -1 <==> forall i :: 0 <= i < |s| ==> s[i] == InputRedirect)
      && (o.infileIndex != -1 ==> s[o.infileIndex - 1] != InputRedirect)
      && (o.infileIndex != -1 ==> forall j :: o.infileIndex <= j < |s| ==> s[j] == InputRedirect)
      && (o.outfileIndex == -1 <==> forall i :: 0 <= i < |s| ==> s[i] == OutputRedirect)
      && (o.outfileIndex != -1 ==> s[o.outfileIndex - 1] != OutputRedirect)
      && (o.outfileIndex != -1 ==> forall j :: o.outfileIndex <= j < |s| ==> s[j] == OutputRedirect)
      && (o.background == 1 <==> exists i :: 0 <= i < |s| && s[i] != BackgroundMark)
  {
    var s := Stored(tokens);
    assert Expected(tokens) == Classified(s, false);
    InvertedMarker(s, InputRedirect);
    InvertedMarker(s, OutputRedirect);
  }

  /** A stand-alone "\n" token at the end is neither stored nor counted, and changes nothing. */
  lemma {:induction false} NewlineTokenIgnored(tokens: seq<string>)
    requires tokens != []
    ensures Expected(tokens + [Newline]) == Expected(tokens)
    ensures Stored(tokens + [Newline]) == Stored(tokens)
  {
    assert Kept(tokens + [Newline]) == Kept(tokens) by {
      KeptAppend(tokens, [Newline]);
      KeptOne(Newline);
      assert Kept(tokens) + [] == Kept(tokens);
    }
    assert (tokens + [Newline])[0] == tokens[0];
  }

  /**
   * A line whose first token is exactly "#" is skipped: nothing stored, nothing
   * counted. The "#" may follow any number of spaces and be followed by a
   * space or by the end of the line.
   */
  lemma {:induction false} CommentLine(k: nat, rest: string)
    requires rest == [] || rest[0] == Space
    ensures Expected(Split(Spaces(k) + CommentMark + rest)) == Skipped
    ensures Stored(Split(Spaces(k) + CommentMark + rest)) == []
  {
    NextTokenOfPadded(k, CommentMark, rest);
  }

  /**
   * A line that is one word (no delimiter in it) is a single token; unless
   * that word is exactly "#" or "\n" it is stored and counted.
   */
  lemma {:induction false} SingleWordLine(w: string)
    requires Word(w) && w != CommentMark && w != Newline
    ensures Split(w) == [w]
    ensures Stored(Split(w)) == [w]
    ensures Expected(Split(w)) == Parsed(1, 1,
                                         if w != InputRedirect then 1 else -1,
                                         if w != OutputRedirect then 1 else -1,
                                         if w != BackgroundMark then 1 else 0)
  {
    assert Layout([0, 0], [w]) == w;
    SplitLayout([0, 0], [w]);
    KeptOne(w);
    assert [] + [w] == [w];
    ClassifiedStep([], w);
  }

  /** A "#" glued to a word, or to the line's newline, does not make a comment. */
  lemma {:induction false} GluedHashIsNotComment()
    ensures Expected(Split("#foo")) == Parsed(1, 1, 1, 1, 1)
    ensures Expected(Split("#\n")) == Parsed(1, 1, 1, 1, 1)
  {
    SingleWordLine("#foo");
    SingleWordLine("#\n");
  }

  /** A line with no token at all (empty, or only delimiters) reaches strcmp(NULL, "#"). */
  lemma {:induction false} BlankLine(k: nat)
    ensures Expected(Split(Spaces(k))) == Undefined(NullToken)
  {
    assert Layout([k], []) == Spaces(k);
    SplitLayout([k], []);
  }

  /** A newline standing alone after the last word is dropped; the line parses as without it. */
  lemma {:induction false} TrailingLoneNewline(w: string)
    requires Split(w) != []
    ensures Expected(Split(w + " \n")) == Expected(Split(w))
    ensures Stored(Split(w + " \n")) == Stored(Split(w))
  {
    assert Split(w + " \n") == Split(w) + [Newline] by {
      assert w + " \n" == w + [Space] + Newline;
      SplitAppend(w, Newline);
      assert Layout([0, 0], [Newline]) == Newline;
      SplitLayout([0, 0], [Newline]);
    }
    NewlineTokenIgnored(Split(w));
  }

  /** An empty line typed at the prompt is the one token "\n": nothing is stored and the markers keep their initial values. */
  lemma {:induction false} EmptyInputLine()
    ensures Expected(Split("\n")) == Parsed(0, 0, -1, -1, 0)
    ensures Stored(Split("\n")) == []
  {
    assert Split("\n") == [Newline] by {
      assert Layout([0, 0], [Newline]) == Newline;
      SplitLayout([0, 0], [Newline]);
    }
    KeptOne(Newline);
  }

  /** Only the space separates: the newline getline leaves at the end stays glued to the last word. */
  lemma {:induction false} GluedNewlineExample()
    ensures Split("ls -l\n") == ["ls", "-l\n"]
  {
    assert Layout([0, 1, 0], ["ls", "-l\n"]) == "ls -l\n";
    SplitLayout([0, 1, 0], ["ls", "-l\n"]);
  }

  /** The glued token is stored like any other word: two arguments, both file markers at 2, background set. */
  lemma {:induction false} GluedNewlineOutcome()
    ensures Stored(["ls", "-l\n"]) == ["ls", "-l\n"]
    ensures Expected(["ls", "-l\n"]) == Parsed(2, 2, 2, 2, 1)
  {
    var words := ["ls", "-l\n"];
    KeptKeepsOthers(words);
    ClassifiedStep([], "ls");
    assert [] + ["ls"] == ["ls"];
    ClassifiedStep(["ls"], "-l\n");
  }

  /** A command sent to the background, as getline returns it: the "&" stays glued to the newline. */
  lemma {:induction false} GluedAmpersandExample()
    ensures Split("sleep 1 &\n") == ["sleep", "1", "&\n"]
  {
    assert Layout([0, 1, 1, 0], ["sleep", "1", "&\n"]) == "sleep 1 &\n";
    SplitLayout([0, 1, 1, 0], ["sleep", "1", "&\n"]);
  }

  /**
   * Even with the tests corrected, a trailing "&" typed at the prompt does not
   * set `background`: the token is "&\n", not "&".
   */
  lemma {:induction false} GluedAmpersandOutcome()
    ensures Expected(["sleep", "1", "&\n"]).background == 1
    ensures Intended(["sleep", "1", "&\n"]).background == 0
  {
    var words := ["sleep", "1", "&\n"];
    KeptKeepsOthers(words);
    assert Stored(words) == words;
    assert words[0] != BackgroundMark && words[1] != BackgroundMark && words[2] != BackgroundMark;
    assert BackgroundMark !in words;
    assert SomeFires(words, BackgroundMark, false) by {
      assert Fires(words[0], BackgroundMark, false);
    }
  }

  /** With the test the right way round, a marker is one past the last occurrence of the operator, or -1 when there is none. */
  lemma {:induction false} IntendedMarker(s: seq<string>, op: string)
    ensures var m := MarkerAfter(s, op, true);
      && (m == -1 <==> op !in s)
      && (m != -1 ==> s[m - 1] == op)
      && (m != -1 ==> forall j :: m <= j < |s| ==> s[j] != op)
  {
    MarkerIsLastFiring(s, op, true);
    var m := MarkerAfter(s, op, true);
    if op in s {
      var i :| 0 <= i < |s| && s[i] == op;
      assert Fires(s[i], op, true);
    }
    if m != -1 {
      forall j | m <= j < |s| ensures s[j] != op {
        assert !Fires(s[j], op, true);
      }
    }
  }

  /**
   * The outcome the comments in the source describe, for a line with these
   * tokens: `infile_index` (and `outfile_index`) is the position of the word
   * that follows the last "<" (">"), or -1 when there is none, and
   * `background` is 1 exactly when an "&" was found. Lines that are skipped
   * or undefined are unaffected.
   */
  function Intended(tokens: seq<string>): (o: Outcome)
    ensures !o.Parsed? ==> o == Expected(tokens)
    ensures o.Parsed? ==> o.index == o.totalArgs == |Stored(tokens)|
    ensures o.Parsed? ==> -1 <= o.infileIndex <= o.totalArgs && o.infileIndex != 0
    ensures o.Parsed? ==> -1 <= o.outfileIndex <= o.totalArgs && o.outfileIndex != 0
    ensures o.Parsed? ==> (o.infileIndex == -1 <==> InputRedirect !in Stored(tokens))
    ensures o.Parsed? && o.infileIndex != -1 ==>
      && Stored(tokens)[o.infileIndex - 1] == InputRedirect
      && forall j :: o.infileIndex <= j < |Stored(tokens)| ==> Stored(tokens)[j] != InputRedirect
    ensures o.Parsed? ==> (o.outfileIndex == -1 <==> OutputRedirect !in Stored(tokens))
    ensures o.Parsed? && o.outfileIndex != -1 ==>
      && Stored(tokens)[o.outfileIndex - 1] == OutputRedirect
      && forall j :: o.outfileIndex <= j < |Stored(tokens)| ==> Stored(tokens)[j] != OutputRedirect
    ensures o.Parsed? ==> (o.background == 1 <==> BackgroundMark in Stored(tokens))
  {
    if tokens == [] || tokens[0] == CommentMark || |Kept(tokens)| > MaxArgs then Expected(tokens)
    else
      var kept := Kept(tokens);
      assert kept == Stored(tokens);
      IntendedMarker(kept, InputRedirect);
      IntendedMarker(kept, OutputRedirect);
      assert SomeFires(kept, BackgroundMark, true) <==> BackgroundMark in kept by {
        if BackgroundMark in kept {
          var i :| 0 <= i < |kept| && kept[i] == BackgroundMark;
          assert Fires(kept[i], BackgroundMark, true);
        }
      }
      Classified(kept, true)
  }

  /** An ordinary input redirection, as getline returns it, is three tokens. */
  lemma {:induction false} InvertedTestsExample()
    ensures Split("sort < in.txt\n") == ["sort", "<", "in.txt\n"]
  {
    assert Layout([0, 1, 1, 0], ["sort", "<", "in.txt\n"]) == "sort < in.txt\n";
    SplitLayout([0, 1, 1, 0], ["sort", "<", "in.txt\n"]);
  }

  /**
   * The inverted tests on an ordinary input redirection: as written both
   * file markers point past the last argument and `background` is set, where
   * the comments ask for `infile_index` 2 (the file name), no output file and
   * no background.
   */
  lemma {:induction false} InvertedTestsOutcome()
    ensures Expected(["sort", "<", "in.txt\n"]) == Parsed(3, 3, 3, 3, 1)
    ensures Intended(["sort", "<", "in.txt\n"]) == Parsed(3, 3, 2, -1, 0)
  {
    var words := ["sort", "<", "in.txt\n"];
    KeptKeepsOthers(words);
    assert Classified(words, false) == Parsed(3, 3, 3, 3, 1) by {
      assert words[..2] == ["sort", "<"];
    }
    assert Classified(words, true) == Parsed(3, 3, 2, -1, 0) by {
      assert words[..2] == ["sort", "<"];
      assert MarkerAfter(words, InputRedirect, true) == 2;
      assert ["sort", "<"][..1] == ["sort"] && ["sort"][..0] == [];
      assert MarkerAfter(["sort"], OutputRedirect, true) == -1;
      assert MarkerAfter(["sort", "<"], OutputRedirect, true) == -1;
      assert MarkerAfter(words, OutputRedirect, true) == -1;
      assert !SomeFires(words, BackgroundMark, true);
    }
  }
}
