# smallsh line parser — a Dafny model

smallsh is a small command interpreter. Its prompt loop in `main` reads a line, cuts it into tokens with `strtok(_, " ")` and skips the line if its first token is exactly `#`. Otherwise it walks the tokens: a token that is exactly `"\n"` is ignored, every other token is stored in `char* arguments[512]` and counted in `index` and `total_args`, and the markers `infile_index`, `outfile_index` and `background` are updated on the way.

The model has two modules:

- `CString` (`cstring.dfy`) models the two `<string.h>` routines the parser uses.
  - `Strcmp` returns the sign of the first difference.
  - `NextToken` is one `strtok` call. The function takes the part of the line the hidden cursor has not consumed yet, and returns the next token together with the new unconsumed part.
  - `Split` is the whole sequence of tokens successive calls return.
  - `Layout` is a reference description of a line: runs of spaces interleaved with words. The lemmas prove that `Split` returns exactly the words of the line's layout, in both directions, and that a single space joining two texts joins their token lists.
- `Smallsh` (`smallsh.dfy`) models the prompt-loop body.
  - `ParseLine` is an imperative method. It loops over the tokens, writes into an `array<string>` of 512 slots and updates the five counters and markers step by step.
  - It is proved against `Expected` (the outcome) and `Stored` (the new array contents). Both are functions of the line's tokens.
  - Lemmas then characterise the result. Among them: which tokens are stored, the bounds of the markers, what the markers mean as written, the comment rule, blank lines, and the trailing newline.

The model follows the code as written. The marker tests are written `if(strcmp(arg, "<"))`, which fires when the token differs from `"<"`, and the model keeps that. `Intended` states what the comments in the source describe; see "## Findings".

Undefined behaviour in the C code is an outcome of the model, not a precondition:

- **A line with no token.** The line is empty or holds only spaces, so `strcmp(NULL, "#")` is called. The model returns `Undefined(NullToken)`.
- **A 513th stored token.** Storing it would write `arguments[512]`. The model returns `Undefined(ArgumentsOverflow)` and leaves the first 512 slots filled.

The code differs from what one might expect of a shell, and the model follows the code:

- **Comments.** A line is a comment only when its first token is exactly `#`. A token that merely starts with `#`, such as `#foo`, or `#\n` on a line that is just `#`, does not count.
- **Delimiters.** Only the space character separates tokens. Tabs and the newline do not.
- **The trailing newline.** The newline `getline` leaves at the end of the line is not stripped. It stays glued to the last word, and it is dropped only when it stands alone as a token.
- **Operators.** `<`, `>` and `&` are stored in `arguments` like any other word. The parser does not remove them.
- **`$$`.** This file does no `$$` expansion at all.

## Model

| member | source | states |
|---|---|---|
| CString.Strcmp | smallsh.c:61 | strcmp yields 0 exactly when the two strings are equal, and otherwise a sign (-1 or 1); every `strcmp` test of the parser depends only on this |
| CString.NextToken | smallsh.c:58 | one strtok(_, " ") call: the result is NULL exactly when the unconsumed text holds only spaces; otherwise the token is non-empty and space-free, and the unconsumed rest is strictly shorter |
| CString.NextTokenOfPadded | smallsh.c:58 | strtok skips any number of leading spaces, returns the whole following word, and resumes just past the one space that ends it (or at the end of the line) |
| CString.Split | smallsh.c:58-83 | every token successive strtok calls return is non-empty and contains no space |
| CString.SplitLayout | smallsh.c:58-83 | a line made of separated words, with any runs of spaces before, between and after them, splits into exactly those words in order |
| CString.LayoutOfSplit | smallsh.c:58-83 | every line is such a layout of its own tokens: the tokens are the maximal runs of non-space characters, nothing is lost but spaces |
| CString.SplitCharacterization | smallsh.c:58-83 | Split(line) == words if and only if the line is a layout of those words (both directions) |
| CString.SplitAppend | smallsh.c:58-83 | only the space separates: two texts joined by one space split into the tokens of the first followed by those of the second; no token spans the join |
| Smallsh.Kept | smallsh.c:64 | the tokens the loop stores are never "\n", and there are no more of them than tokens |
| Smallsh.KeptMembers | smallsh.c:63-82 | a token is stored exactly when it occurs in the line and is not "\n" |
| Smallsh.KeptKeepsOthers | smallsh.c:63-82 | tokens other than "\n" are all stored, in input order; `<`, `>` and `&` are not stripped |
| Smallsh.KeptAppend | smallsh.c:63-82 | the stored tokens of two token lists joined are the stored tokens of each, joined |
| Smallsh.MarkerAfter | smallsh.c:51-73 | a marker ends as -1 or as a position between 1 and the number of stored tokens |
| Smallsh.MarkerIsLastFiring | smallsh.c:66-73 | a marker is one past the last stored token its test fires on, and -1 exactly when the test fires on none |
| Smallsh.ClassifiedStep | smallsh.c:64-81 | one more stored token advances both counters by one and sets each marker as the three inverted tests do |
| Smallsh.Stored | smallsh.c:79-80 | what lands in `arguments`: at most 512 tokens, none of them "\n" |
| Smallsh.Expected | smallsh.c:43-84 | after the loop `index == total_args ==` number of stored tokens; `-1 <= infile_index, outfile_index <= total_args` and neither is 0; `background` is 0 or 1; a skipped or token-less line stores nothing; an overflowing line has filled all 512 slots |
| Smallsh.OverflowOutcome | smallsh.c:79-80 | reaching a 513th stored token is the overflow outcome, and the first 512 slots hold exactly the tokens stored before it |
| Smallsh.ParseLine | smallsh.c:43-84 | the loop over strtok's tokens ends in the outcome `Expected` gives for the line, and `arguments` holds the stored tokens in its first slots with every other slot unchanged |
| Smallsh.ParsedMarkers | smallsh.c:51-77 | as written, `infile_index` is one past the last stored token that is not "<" and -1 only when every stored token is "<"; the same for `outfile_index` and ">"; `background` is 1 exactly when some stored token is not "&" |
| Smallsh.NewlineTokenIgnored | smallsh.c:64 | a stand-alone "\n" token at the end changes neither the outcome nor the array |
| Smallsh.CommentLine | smallsh.c:58-61 | a line whose first token is "#" is skipped, nothing stored or counted: any number of leading spaces, then "#", then a space or the end of the line |
| Smallsh.GluedHashIsNotComment | smallsh.c:61 | `#foo` and `#\n` (a lone `#` with its newline) are not comments: each is stored as one argument |
| Smallsh.SingleWordLine | smallsh.c:58-81 | a one-word line other than "#" and "\n" is one token, stored and counted once, with the markers set by the inverted tests |
| Smallsh.BlankLine | smallsh.c:58-61 | a line of spaces only (or empty) has no token and reaches strcmp(NULL, "#") |
| Smallsh.EmptyInputLine | smallsh.c:58-64 | an empty line typed at the prompt ("\n") stores nothing and leaves every marker at its initial value |
| Smallsh.TrailingLoneNewline | smallsh.c:63-84 | a newline standing alone after the last word is dropped; the line parses as without it |
| Smallsh.GluedNewlineExample | smallsh.c:58 | `ls -l\n` splits into `ls` and `-l\n`: the newline stays glued to the last word |
| Smallsh.GluedNewlineOutcome | smallsh.c:64-81 | the glued token is stored like any other: two arguments, both file markers 2, background 1 |
| Smallsh.InvertedTestsExample | smallsh.c:58 | `sort < in.txt\n` splits into `sort`, `<` and `in.txt\n` |
| Smallsh.InvertedTestsOutcome | smallsh.c:66-77 | on those tokens the code as written yields markers 3, 3 and background 1, where the intended reading yields 2, -1 and 0 |
| Smallsh.GluedAmpersandExample | smallsh.c:58 | `sleep 1 &\n` splits into `sleep`, `1` and `&\n` |
| Smallsh.GluedAmpersandOutcome | smallsh.c:74-77 | on those tokens `background` is 1 as written, and still 0 with the test corrected, because the token is `&\n` and not `&` |
| Smallsh.Intended | smallsh.c:48-77 | the outcome the comments describe: `infile_index` (`outfile_index`) is one past the last "<" (">") among the stored tokens, and -1 exactly when there is none; `background` is 1 exactly when "&" was stored; counters as written; skipped and undefined lines unchanged |

## Findings

| source | as written | input that shows it | evidently intended | confidence | as-written member | corrected member |
|---|---|---|---|---|---|---|
| smallsh.c:66-77 | `if(strcmp(arg, "<"))` (likewise `">"` and `"&"`) fires when the token differs from the operator, so the markers track ordinary words | `sort < in.txt\n` gives `infile_index` 3, `outfile_index` 3, `background` 1 | `strcmp(...) == 0`: `infile_index` 2 (the slot after `<`), `outfile_index` -1, `background` 0 | high; not executed | Smallsh.InvertedTestsOutcome | Smallsh.Intended |

`ParseLine`, `Expected` and `ParsedMarkers` keep the as-written tests, because they model what the program computes. `Intended` is the corrected definition, characterised by its own contract, and `InvertedTestsOutcome` shows the two apart on one input.

Correcting the tests is not enough for `&` typed last at the prompt. The newline `getline` leaves stays glued to it, so the token is `&\n`, not `&`. `GluedAmpersandExample` and `GluedAmpersandOutcome` show this on `sleep 1 &\n`: `Intended` leaves `background` at 0 there.

## Left out

- `execute` (smallsh.c:7-10) is left out. It only wraps `execvp`, `perror` and `exit`, which are process calls outside the model.
- The prompt and input plumbing (smallsh.c:27-34, 85) is left out: `printf`, `fflush`, `getline` and the `Total args` print. The line `getline` returns is the parameter `line` of `ParseLine`. The leaked `input` buffer is not modelled.
- `struct args` (smallsh.c:14-25) is declared but never used.
- The built-in and launcher placeholders (smallsh.c:87-93) are empty comments. `$$` expansion, `cd`, `status`, `exit`, redirection setup, fork and wait, background reaping and signal handling are not part of this model; this file contains no code for them.
- CString.NextToken: strtok's hidden static cursor, and the NUL it writes into the line, are modelled as the unconsumed suffix the call returns. The aliasing between `arguments` and the input buffer is therefore not captured: slots hold token values, not pointers into the line.
- Smallsh.ParseLine: the method loops over the token sequence `Split(line)` rather than calling strtok inside the loop. It computes every token before the loop, where C produces them one per iteration. The per-token decisions and the final state are the same.
- CString.Split: the model treats NUL as an ordinary character and splits past it. C's `strtok` and `strcmp` stop at the first NUL, so text after an embedded NUL in the line would be invisible to them.
- CString.Strcmp: returns only the sign of the difference, not the magnitude C implementations may return. The parser only compares the result with 0.
- Smallsh.ParseLine: `int` is modelled as unbounded `int`. No wrap-around can occur, because `index` and `total_args` never exceed 512.
- Smallsh.Expected: the two undefined-behaviour cases end in an `Undefined` outcome. The C program's actual behaviour there, such as a crash or memory corruption, is not modelled.
