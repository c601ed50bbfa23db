# Label test converter — a Dafny model

The repository is one rewriting script, `convert-label-tests.py`. It reads a
React test file, rewrites `createElement(Label, …)` calls into JSX, and writes
the file back. It works in two passes:

- **Pass 1, the simple-call rewrite** (lines 9-13). A global `re.sub` turns
  every `createElement(Label, null, "text")` into `<Label>text</Label>`.
- **Pass 2, the structured-call rewrite** (lines 17-106). A scan over the
  lines of the text. A line that holds `createElement(`, `Label` and `{` starts
  a *call span*, which runs until the running count of `(` minus `)` is back
  to 0. In the joined span the script searches for
  `createElement(\s*Label,\s*{props},\s*"child"\s*)`. When it finds it, each
  recognised property line becomes a JSX attribute, the other lines are
  dropped, and the span is replaced by one
  `render(<Label …>child</Label>);` block: one line for up to two
  attributes, one attribute per line for more. A span without that call is
  copied as it is, and so is every other line.

The model is a pure function from the text read to the text written
(`ConvertLabelTests.Converted`), with the file I/O left to the caller.

- Pass 1 and the property classifier are functions.
- Pass 2 is a set of methods with the script's loops:
  - the outer `while` over `i`;
  - the inner `for` with its `depth` counter and `break`;
  - the loop that appends to `props_list`;
  - the loop that extends the `jsx` string.

  Each method is proved against a functional specification (`Scan.ScanFrom`,
  `Scan.Span`, `Props.PropsOf`, `Jsx.Layout`).

Both regular expressions use only literals, `\s*` and negated classes
`[^c]+` (one in the pattern of line 10, two in that of line 42). In both, each
`\s*` is followed by a literal that starts with a non-space character, and each
`[^c]+` by a literal that starts with `c`: this is `Pattern.Deterministic`,
proved of the two patterns by `SimpleCall.SimplePatternDeterministic` and
`LabelCall.LabelPatternDeterministic`. A pattern with that property matches at
a given position in at most one way. So `Pattern` models them with a greedy
matcher instead of a regex engine, and proves two things about it:

- it is sound (`MatchSound`);
- it is complete for these patterns (`MatchComplete`).

`\s` in both patterns and `str.strip()` without arguments use Python's
Unicode whitespace set; `Text.IsSpace` lists that set explicitly.

`re.search` is the leftmost position where the matcher succeeds (`Search`).

Modules, one per concern of the script:

| file | module | what it holds |
|---|---|---|
| text.dfy | `Text` | `strip`, `rstrip(',')`, `count`, `in`, `split`, `join` and their laws |
| pattern.dfy | `Pattern` | the deterministic matcher and the leftmost search |
| simple_call.dfy | `SimpleCall` | pass 1 |
| label_call.dfy | `LabelCall` | the line-42 pattern and its search |
| props.dfy | `Props` | property-line classification (lines 48-84) |
| jsx.dfy | `Jsx` | the two layouts (lines 86-94) |
| scan.dfy | `Scan` | pass 2: the line scan, span collection and the final join |
| convert.dfy | `ConvertLabelTests` | the two passes in sequence |

Behaviours of the script that a reader may not expect, all modelled as the
code has them:

- The indent literal on line 87 is three tab characters.
- There are nine key tests. `id:` is tested once, on line 76, before the two
  aria keys; since the tests look for substrings, a key such as `uuid` is
  also taken as `id` (`Props.SubstringCollision`).
- A property line is dropped without a word when, once stripped and rid of
  its trailing commas, it is empty, has no colon, or fires none of the nine
  tests: the bag lines `foo: bar` and `nocolon` give no attribute
  (`Props.ClassifyPropMeaning`, `Props.PropsOfNoneRecognised`).
- The value of a property is `split(':')[1]`: the text between the first
  and the second colon, so a value that holds a colon is cut there.
  `Props.ValueStopsAtColon` pins this down.
- Pass 1 is not idempotent. The input
  `createElement(Label, null, "createElement(Label, null, "y")")` becomes
  `createElement(Label, null, "<Label>y</Label>")`, and a second run
  rewrites that again (`SimpleCall.RewriteNotIdempotent`).
- When the parentheses of a span never balance, the loop of lines 31-36
  leaves `i` on the span's first line, so the scan resumes at the line after
  it and the span's remaining lines are looked at a second time. When the call
  is not found, the span is copied and its later lines are then output again
  (`Scan.UnbalancedRepeats`). When the call is found, the span is replaced by
  the block, and its later lines are still scanned and output after the
  block (`Scan.UnbalancedConverted`).

## Model

| member | source | states |
|---|---|---|
| `SimpleCall.SimplePatternDeterministic` | convert-label-tests.py:10 | the pattern `SimplePattern`, the atoms of `createElement\(Label,\s*null,\s*"([^"]+)"\)`, is deterministic: its two `\s*` are followed by `null,` and `"`, its `[^"]+` by `")` |
| `SimpleCall.MatchCall` | convert-label-tests.py:10 | an anchored match of `createElement(Label,\s*null,\s*"([^"]+)")` is a call with space-only gaps and a non-empty, quote-free text, and the input starts with that call |
| `SimpleCall.MatchCallComplete` | convert-label-tests.py:10 | every input that starts with such a call is matched, as exactly that call |
| `SimpleCall.Chunks` | convert-label-tests.py:9-13 | the left-to-right scan of `re.sub` cuts the input into kept characters and matched calls whose texts concatenate back to the input |
| `SimpleCall.Rewrite` | convert-label-tests.py:9-13 | pass 1: every chunk of the scan that is a matched call is replaced by `<Label>` + its text + `</Label>`, and every kept character is copied |
| `SimpleCall.ChunksLeftmost` | convert-label-tests.py:9-13 | each chunk of the scan is the call that matches where it starts, or a single character where none matches |
| `SimpleCall.ChunksUnique` | convert-label-tests.py:9-13 | any leftmost, non-overlapping decomposition of a text is the one the scan computes |
| `SimpleCall.RewriteAtCall` | convert-label-tests.py:9-13 | a call at the front becomes `<Label>` + text + `</Label>`, and the rest is rewritten on its own |
| `SimpleCall.RewriteAtOther` | convert-label-tests.py:9-13 | a character where no call starts is kept, and the scan resumes right after it |
| `SimpleCall.RewriteKeepsFront` | convert-label-tests.py:9-13 | a stretch of text in which no call starts is copied unchanged and in order |
| `SimpleCall.RewriteWithoutCall` | convert-label-tests.py:9-13 | a text without `createElement(Label,` comes back unchanged |
| `SimpleCall.EmptyTextNotMatched` | convert-label-tests.py:10 | `createElement(Label, null, "")` is never matched, whatever the spacing and whatever follows |
| `SimpleCall.RewriteSingleCall` | convert-label-tests.py:9-13 | `createElement(Label, null, "T")` becomes `<Label>T</Label>` for every non-empty quote-free T |
| `SimpleCall.CallQuotes` | convert-label-tests.py:10 | where a call matches, its text is what lies between the first two quotes, and `)` follows the second one |
| `SimpleCall.NoOuterMatch` | convert-label-tests.py:10 | a call whose text is itself a call (whose own text does not start with `)`) does not match as a whole |
| `SimpleCall.RewriteNested` | convert-label-tests.py:9-13 | in a call nested in another call's text, when the inner text does not start with `)`, only the inner call is rewritten |
| `SimpleCall.RewriteNotIdempotent` | convert-label-tests.py:9-13 | for such a nested call, with space-only gaps and an inner text that does not start with `)`, the output of the rewrite is itself a call that a second run rewrites, so pass 1 is not idempotent |
| `Pattern.Match` | convert-label-tests.py:10 | the anchored match of a pattern at the start of a text, as `re` tries it at one position: each atom in turn takes its literal, its longest run of whitespace, or its longest non-empty run without the stop character, and the texts taken are returned (the groups among them) |
| `Pattern.MatchSound` | convert-label-tests.py:10 | what the matcher returns fits the pattern's atoms and is a prefix of the input |
| `Pattern.MatchComplete` | convert-label-tests.py:42 | for a deterministic pattern, every prefix that fits the atoms is what the matcher returns |
| `Pattern.Search` | convert-label-tests.py:42 | `re.search`: the anchored match at the first position at or after `from` where it succeeds, with that position, or nothing |
| `Pattern.SearchLeftmost` | convert-label-tests.py:42 | `re.search` returns the first position at which the pattern matches, with that match |
| `Pattern.SearchNone` | convert-label-tests.py:42 | `re.search` fails only when the pattern matches nowhere |
| `LabelCall.LabelPatternDeterministic` | convert-label-tests.py:42 | the pattern `LabelPattern`, the atoms of `createElement\(\s*Label,\s*\{([^}]+)\},\s*"([^"]+)"\s*\)`, is deterministic: each `\s*` is followed by a literal starting with a non-space, `[^}]+` by `},` and `[^"]+` by `"` |
| `LabelCall.MatchAt` | convert-label-tests.py:42 | the anchored match of the line-42 pattern at the start of a text, read as a call: its four gaps, group 1 (the bag) and group 2 (the child) |
| `LabelCall.MatchAtSound` | convert-label-tests.py:42 | an anchored match of the line-42 pattern is a call with space-only gaps, a non-empty `}`-free bag and a non-empty quote-free child, and the text starts with it |
| `LabelCall.MatchAtComplete` | convert-label-tests.py:42 | every text that starts with such a call is matched, as exactly that call |
| `LabelCall.Find` | convert-label-tests.py:42 | `re.search` of the line-42 pattern over the span text: the call at the leftmost position where the anchored match succeeds, with groups 1 and 2, or nothing |
| `LabelCall.FindNone` | convert-label-tests.py:42-43 | the search fails exactly when no such call occurs anywhere in the span text |
| `LabelCall.FindSound` | convert-label-tests.py:42-46 | the call found occurs in the span text, and its groups 1 and 2 are the bag and the child |
| `LabelCall.FindLeftmost` | convert-label-tests.py:42 | when a call starts at some position and none starts earlier, that call is the one found |
| `Props.KindOf` | convert-label-tests.py:53-84 | the if-chain of substring tests, in the script's order: the key of the first test that fires, or none |
| `Props.KindOfFirst` | convert-label-tests.py:53-84 | the key chosen is the first test in the fixed order that fires, and no key is chosen only when no test fires |
| `Props.Value` | convert-label-tests.py:54-83 | the value of a property line, `split(':')[1].strip()` |
| `Props.ColonField` | convert-label-tests.py:54 | `split(':')[1]` is the text between the first colon and the next colon, or the end of the line |
| `Props.Attribute` | convert-label-tests.py:54-84 | the attribute appended for a key and a value: `name=value`, or for `required` and `disabled` the bare name when the value is `true` and `name={value}` otherwise |
| `Props.Clean` | convert-label-tests.py:50 | `prop_line.strip().rstrip(',')`: the line without surrounding whitespace and then without trailing commas |
| `Props.ClassifyProp` | convert-label-tests.py:50-84 | one property line, stripped and without trailing commas, to its attribute, or to nothing when it is empty, has no colon or matches no test |
| `Props.ClassifyPropMeaning` | convert-label-tests.py:50-84 | a line is dropped exactly when, once cleaned, it has no colon or no test fires; otherwise it becomes the attribute of the first key that fires, and that attribute carries the line's value |
| `Props.AttributeRoundTrip` | convert-label-tests.py:54-84 | the value is kept verbatim: reading the attribute back gives the value |
| `Props.AttributeBare` | convert-label-tests.py:55-66 | an attribute is the bare name exactly for `required` or `disabled` with the value `true` |
| `Props.ValueStopsAtColon` | convert-label-tests.py:56 | the value is cut at the second colon, so `className: "a:b"` gives `"a` |
| `Props.SubstringCollision` | convert-label-tests.py:53-78 | the key tests are substring tests: a line with a single colon whose key ends in `id` (such as `uuid: x`) is classified as `id` |
| `Props.Emit` | convert-label-tests.py:51-84 | what one property line appends to `props_list`: its attribute, or nothing when it is dropped |
| `Props.PropsOf` | convert-label-tests.py:48-84 | the attributes of a sequence of property lines: each line's attribute, if any, in line order |
| `Props.ConvertProps` | convert-label-tests.py:48-84 | the loop appends, in line order, the attribute of every recognised property line |
| `Props.PropsOfAppend` | convert-label-tests.py:48-84 | the attributes of two runs of lines are those of the first run followed by those of the second |
| `Props.PropsOfNoneRecognised` | convert-label-tests.py:48-84 | a bag with no recognised line gives no attributes |
| `Props.PropsOfAllRecognised` | convert-label-tests.py:48-84 | when every line is recognised, there is one attribute per line, in line order |
| `Jsx.Layout` | convert-label-tests.py:86-94 | the JSX text: `render(<Label …>child</Label>);` on one line with the attributes joined by spaces for up to two attributes, otherwise the `render(` and `<Label` lines, one line per attribute, then the `>`, child, `</Label>,` and `);` lines, joined by `\n` |
| `Jsx.BuildJsx` | convert-label-tests.py:86-94 | the `+=` loop builds the one-line form for up to two attributes, and the joined multi-line rows otherwise |
| `Jsx.LayoutLines` | convert-label-tests.py:88-94 | when no input holds a line break: up to two attributes give one line; n > 2 give n + 6 lines, with attribute k on line k + 2 behind the indent and two tabs |
| `Jsx.NoAttributes` | convert-label-tests.py:89 | with no attributes the tag is still written as `<Label >` |
| `Scan.IsCandidate` | convert-label-tests.py:25 | a line starts a call span when it contains `createElement(`, `Label` and `{` |
| `Scan.Delta` | convert-label-tests.py:33 | what one line adds to `depth`: its count of `(` minus its count of `)` |
| `Scan.Depth` | convert-label-tests.py:27-33 | the value of `depth` after a run of lines, starting from 0 |
| `Scan.Closing` | convert-label-tests.py:31-36 | the first line at or after `from` after which the depth of the span from `start` is 0, or none when there is no such line |
| `Scan.ClosingFirst` | convert-label-tests.py:31-36 | the span closes at the first line at which the parenthesis depth is back to 0, and has no close when the depth never returns to 0 |
| `Scan.Span` | convert-label-tests.py:27-36 | a span is a non-empty run of lines from its start line, and the scan resumes strictly later |
| `Scan.CollectSpan` | convert-label-tests.py:27-36 | the inner loop with its running depth and `break` collects exactly the span, and leaves `i` on its last line (or on its first line when it never closes) |
| `Scan.SpanCloses` | convert-label-tests.py:27-36 | when lines i..j first balance at j, the span is lines i..j and the scan resumes at j + 1 |
| `Scan.SingleLineSpan` | convert-label-tests.py:27-36 | a candidate line whose parentheses balance on their own is a span by itself |
| `Scan.UnbalancedSpan` | convert-label-tests.py:31-36 | when the depth never returns to 0, the span is every remaining line and the scan resumes at the line after its start |
| `Scan.UnbalancedRepeats` | convert-label-tests.py:31-36 | such a span, when not converted, is output, and its later lines are then scanned and output again |
| `Scan.UnbalancedConverted` | convert-label-tests.py:31-46 | such a span, when the call is found, is output as the block, and the scan still resumes at the line after its start, so its later lines are output after the block |
| `Scan.Block` | convert-label-tests.py:44-94 | what a found call becomes: its bag stripped and split on `\n`, the attributes of those lines in order, and the layout of lines 86-94 with the three-tab indent `Scan.Indent` of line 87 and group 2 as the child |
| `Scan.Step` | convert-label-tests.py:21-103 | one turn of the outer loop moves `i` strictly forward |
| `Scan.ScanFrom` | convert-label-tests.py:21-103 | the lines appended to `result` from line `i` to the end: each turn's output, then the scan from where that turn leaves `i` |
| `Scan.StepCopied` | convert-label-tests.py:100-101 | a line that is not a candidate is output unchanged |
| `Scan.StepParsed` | convert-label-tests.py:42-46 | a span in which the call is found becomes exactly one output element, the JSX block, whatever else the span holds |
| `Scan.StepUnparsed` | convert-label-tests.py:97-99 | a span in which the call is not found is output line for line |
| `Scan.ConvertSpan` | convert-label-tests.py:38-99 | the span is replaced by the block built from the found call, or kept as it is |
| `Scan.ConvertLine` | convert-label-tests.py:22-101 | one turn of the loop body appends what the scan specification says |
| `Scan.RewriteLines` | convert-label-tests.py:17-103 | the outer `while` loop computes exactly the specified scan of all lines |
| `Scan.Output` | convert-label-tests.py:17-106 | pass 2 on a whole text: split on `\n`, scan from line 0, join with `\n` |
| `Scan.RewriteText` | convert-label-tests.py:17-106 | pass 2 is split, scan and join |
| `Scan.ScanIdentity` | convert-label-tests.py:25 | lines without any candidate are output unchanged and in order |
| `Scan.OutputIdentity` | convert-label-tests.py:17-106 | a text with no candidate line comes back identical after split and join |
| `Scan.BlockLines` | convert-label-tests.py:86-96 | for a child without a line break, the block is one line for up to two attributes, and n + 6 lines for n attributes otherwise |
| `ConvertLabelTests.Converted` | convert-label-tests.py:9-106 | the text written back for the text read: pass 1, then pass 2 |
| `ConvertLabelTests.Convert` | convert-label-tests.py:9-106 | the script's transformation is pass 1 followed by pass 2 |
| `ConvertLabelTests.WithoutCreateElement` | convert-label-tests.py:9-106 | a file in which `createElement(` never occurs is written back unchanged |
| `Text.Split` | convert-label-tests.py:17 | `s.split(sep)`: one field more than there are separators, no field holding the separator |
| `Text.Join` | convert-label-tests.py:106 | `sep.join(parts)`: the parts with `sep` between neighbours |
| `Text.Strip` | convert-label-tests.py:50 | `s.strip()`: the input without leading and trailing whitespace, neither end of a non-empty result being whitespace |
| `Text.TrimTrailing` | convert-label-tests.py:50 | `s.rstrip(c)`: the longest prefix that does not end in `c`, everything cut off being `c` |
| `Text.Count` | convert-label-tests.py:33 | `s.count(c)` for one character: how many positions hold `c` |
| `Text.Contains` | convert-label-tests.py:25 | `sub in s`: `sub` is a prefix of some suffix of `s` |
| `Text.JoinSplit` | convert-label-tests.py:17 | joining the lines of a text with `\n` gives back the text |
| `Text.SplitJoin` | convert-label-tests.py:106 | splitting a `\n`-join of lines that hold no `\n` gives back those lines |
| `Text.StripSlice` | convert-label-tests.py:50 | `strip()` returns a slice of its input with only whitespace cut off on either side |
| `Text.CountOccurrences` | convert-label-tests.py:33 | `count(c)` is the number of occurrences of `c` |
| `Text.ContainsIff` | convert-label-tests.py:25 | `sub in s` holds exactly when `sub` occurs at some position of `s` |

## Left out

- Reading and writing `packages/ui/src/Label/Label.test.tsx` (lines 5-6, 107-108): this is file I/O. The model is a function from the text read to the text written.
- The confirmation message printed on line 110: this is console output.
- A general regular-expression engine: only the two fixed patterns of lines 10 and 42 are modelled, by a deterministic matcher that `Pattern.MatchComplete` shows finds exactly their matches. `re.DOTALL` changes nothing, because neither pattern contains `.`.
- Python's `str` is a sequence of code points; `string` here is a sequence of Dafny `char`s (Unicode scalar values). Lone surrogates, which a Python string can hold, are not represented.
