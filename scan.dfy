/** Pass 2 of the converter (lines 17-106 of the script): a scan over the lines
    of the text. A line holding `createElement(`, `Label` and `{` starts a call
    span, which runs until the parentheses balance; a span in which the
    structured call is found becomes one JSX block, any other span and every
    other line is copied. */
module Scan {
  import opened Text
  import opened Props
  import opened Jsx
  import LabelCall

  /** The base indent of the JSX block (line 87). */
  const Indent := "\t\t\t"

  /** Line 25: the line may start a call. */
  function IsCandidate(line: string): bool {
    Contains(line, "createElement(") && Contains(line, "Label") && Contains(line, "{")
  }

  /** What a line adds to the parenthesis depth. */
  function Delta(line: string): int {
    Count(line, '(') - Count(line, ')')
  }

  /** The depth after the lines of `ls`, starting from 0. */
  function Depth(ls: seq<string>): int
    decreases |ls|
  {
    if ls == [] then 0 else Depth(ls[..|ls| - 1]) + Delta(ls[|ls| - 1])
  }

  /** The lines `start..j` balance: line 34's `depth == 0` after line `j`. */
  predicate Balances(lines: seq<string>, start: nat, j: nat)
    requires start <= j < |lines|
  {
    Depth(lines[start..j + 1]) == 0
  }

  /** The first `j` at or after `from` at which the lines `start..j` balance. */
  function Closing(lines: seq<string>, start: nat, from: nat): (r: Option<nat>)
    requires start <= from <= |lines|
    ensures r.Some? ==> from <= r.value < |lines|
    decreases |lines| - from
  {
    if from == |lines| then None
    else if Balances(lines, start, from) then Some(from)
    else Closing(lines, start, from + 1)
  }

  /** `Closing` finds the first line at which the span balances, and reports
      none when it never does. */
  lemma {:induction false} ClosingFirst(lines: seq<string>, start: nat, from: nat)
    requires start <= from <= |lines|
    ensures Closing(lines, start, from).Some? ==> Balances(lines, start, Closing(lines, start, from).value)
    ensures Closing(lines, start, from).Some? ==>
      forall j :: from <= j < Closing(lines, start, from).value ==> !Balances(lines, start, j)
    ensures Closing(lines, start, from).None? ==> forall j :: from <= j < |lines| ==> !Balances(lines, start, j)
    decreases |lines| - from
  {
    if from < |lines| && !Balances(lines, start, from) {
      ClosingFirst(lines, start, from + 1);
    }
  }

  /** The call span starting at line `i` and the line the scan resumes at: up to
      the closing line and just after it, or, when the depth never returns to 0,
      all remaining lines and the line after `i`. */
  function Span(lines: seq<string>, i: nat): (r: (seq<string>, nat))
    requires i < |lines|
    ensures i < r.1 <= |lines| && r.0 != [] && r.0 <= lines[i..]
  {
    match Closing(lines, i, i)
    case Some(j) => (lines[i..j + 1], j + 1)
    case None => (lines[i..], i + 1)
  }

  /** The JSX block built for a call (lines 44-94). */
  function Block(c: LabelCall.Call): string {
    Layout(Indent, PropsOf(Split(Strip(c.props), '\n')), c.child)
  }

  /** One turn of the outer loop at line `i`: what it appends and where it goes on. */
  function Step(lines: seq<string>, i: nat): (r: (seq<string>, nat))
    requires i < |lines|
    ensures i < r.1 <= |lines|
  {
    if !IsCandidate(lines[i]) then ([lines[i]], i + 1)
    else
      var span := Span(lines, i);
      match LabelCall.Find(Join(span.0, "\n"))
      case Some(c) => ([Block(c)], span.1)
      case None => span
  }

  /** The output lines of the scan from line `i` on. */
  function ScanFrom(lines: seq<string>, i: nat): seq<string>
    requires i <= |lines|
    decreases |lines| - i
  {
    if i == |lines| then [] else Step(lines, i).0 + ScanFrom(lines, Step(lines, i).1)
  }

  /** Pass 2 on a whole text. */
  function Output(content: string): string {
    Join(ScanFrom(Split(content, '\n'), 0), "\n")
  }

  lemma DepthSnoc(lines: seq<string>, start: nat, j: nat)
    requires start <= j < |lines|
    ensures Depth(lines[start..j + 1]) == Depth(lines[start..j]) + Delta(lines[j])
  {
    assert lines[start..j + 1][..j - start] == lines[start..j];
  }

  /** No line in `start..to` (exclusive) balances the span from `start`. */
  predicate Unbalanced(lines: seq<string>, start: nat, to: nat)
    requires start <= to <= |lines|
  {
    forall m :: start <= m < to ==> !Balances(lines, start, m)
  }

  lemma UnbalancedSnoc(lines: seq<string>, start: nat, j: nat)
    requires start <= j < |lines| && Unbalanced(lines, start, j) && !Balances(lines, start, j)
    ensures Unbalanced(lines, start, j + 1)
  {
  }

  /** What the inner loop leaves behind is the span and the line before the next one. */
  lemma SpanCollected(lines: seq<string>, start: nat, fullCall: seq<string>, last: nat, closed: bool)
    requires start <= last < |lines|
    requires closed ==> (fullCall == lines[start..last + 1] && Balances(lines, start, last)
                         && Unbalanced(lines, start, last))
    requires !closed ==> (last == start && fullCall == lines[start..] && Unbalanced(lines, start, |lines|))
    ensures Span(lines, start) == (fullCall, last + 1)
  {
    var r := Closing(lines, start, start);
    ClosingFirst(lines, start, start);
    if closed {
      assert r.Some? && r.value == last;
    } else {
      assert r.None?;
    }
  }

  /** Lines 27-36: the inner loop collects the lines of the span into
      `fullCall`, keeping the running `depth`, and stops at the first line where
      the depth is back to 0; `last` is what `i` holds afterwards. */
  method CollectSpan(lines: seq<string>, i: nat) returns (fullCall: seq<string>, last: nat)
    requires i < |lines|
    ensures Span(lines, i) == (fullCall, last + 1)
  {
    var depth := 0;
    var start := i;
    last := i;
    fullCall := [];
    ghost var closed := false;
    for j := i to |lines|
      invariant last == start && !closed
      invariant fullCall == lines[start..j]
      invariant depth == Depth(lines[start..j])
      invariant Unbalanced(lines, start, j)
    {
      fullCall := fullCall + [lines[j]];
      depth := depth + Delta(lines[j]);
      DepthSnoc(lines, start, j);
      if depth == 0 {
        last := j;
        closed := true;
        break;
      }
      UnbalancedSnoc(lines, start, j);
    }
    SpanCollected(lines, start, fullCall, last, closed);
  }

  /** Lines 38-99: the span collected from line `i` becomes the JSX block when
      the structured call is found in it, and is kept as it is otherwise. */
  method ConvertSpan(lines: seq<string>, i: nat) returns (out: seq<string>, last: nat)
    requires i < |lines| && IsCandidate(lines[i])
    ensures Step(lines, i) == (out, last + 1)
  {
    var fullCall;
    fullCall, last := CollectSpan(lines, i);
    var callText := Join(fullCall, "\n");
    var call := LabelCall.Find(callText);
    if call.Some? {
      var propsText := Strip(call.value.props);
      var props := ConvertProps(propsText);
      var jsx := BuildJsx(Indent, props, call.value.child);
      out := [jsx];
    } else {
      out := fullCall;
    }
  }

  /** Lines 24-103: one turn of the outer loop at line `i`; `last` is the line
      it ends on, before line 103 moves past it. */
  method ConvertLine(lines: seq<string>, i: nat) returns (out: seq<string>, last: nat)
    requires i < |lines|
    ensures Step(lines, i) == (out, last + 1)
  {
    var line := lines[i];
    if IsCandidate(line) {
      out, last := ConvertSpan(lines, i);
    } else {
      out, last := [line], i;
      StepCopies(lines, i);
    }
  }

  /** Lines 17-103: the outer loop over `i`. */
  method RewriteLines(lines: seq<string>) returns (result: seq<string>)
    ensures result == ScanFrom(lines, 0)
  {
    result := [];
    var i := 0;
    ScannedStart(lines);
    while i < |lines|
      invariant 0 <= i <= |lines|
      invariant Scanned(lines, result, i)
      decreases |lines| - i
    {
      var out, last := ConvertLine(lines, i);
      Advance(lines, i, result, out, last + 1);
      result := result + out;
      i := last + 1;
    }
    ScannedEnd(lines, result);
  }

  lemma StepCopies(lines: seq<string>, i: nat)
    requires i < |lines| && !IsCandidate(lines[i])
    ensures Step(lines, i) == ([lines[i]], i + 1)
  {
  }

  /** `done` is what the scan outputs before line `i`. */
  predicate Scanned(lines: seq<string>, done: seq<string>, i: nat)
    requires i <= |lines|
  {
    done + ScanFrom(lines, i) == ScanFrom(lines, 0)
  }

  lemma ScannedStart(lines: seq<string>)
    ensures Scanned(lines, [], 0)
  {
    assert [] + ScanFrom(lines, 0) == ScanFrom(lines, 0);
  }

  lemma ScannedEnd(lines: seq<string>, done: seq<string>)
    requires Scanned(lines, done, |lines|)
    ensures done == ScanFrom(lines, 0)
  {
    assert done + [] == done;
  }

  /** One turn of the outer loop keeps the loop invariant. */
  lemma Advance(lines: seq<string>, i: nat, done: seq<string>, out: seq<string>, next: nat)
    requires i < |lines| && Step(lines, i) == (out, next)
    requires Scanned(lines, done, i)
    ensures Scanned(lines, done + out, next)
  {
    assert ScanFrom(lines, i) == out + ScanFrom(lines, next);
    assert (done + out) + ScanFrom(lines, next) == done + (out + ScanFrom(lines, next));
  }

  lemma StepCopied(lines: seq<string>, i: nat)
    requires i < |lines| && !IsCandidate(lines[i])
    ensures ScanFrom(lines, i) == [lines[i]] + ScanFrom(lines, i + 1)
  {
  }

  lemma StepParsed(lines: seq<string>, i: nat, c: LabelCall.Call)
    requires i < |lines| && IsCandidate(lines[i])
    requires LabelCall.Find(Join(Span(lines, i).0, "\n")) == Some(c)
    ensures ScanFrom(lines, i) == [Block(c)] + ScanFrom(lines, Span(lines, i).1)
  {
  }

  lemma StepUnparsed(lines: seq<string>, i: nat)
    requires i < |lines| && IsCandidate(lines[i])
    requires LabelCall.Find(Join(Span(lines, i).0, "\n")).None?
    ensures ScanFrom(lines, i) == Span(lines, i).0 + ScanFrom(lines, Span(lines, i).1)
  {
  }

  /** Pass 2 as the script runs it: split, scan, join. */
  method RewriteText(content: string) returns (output: string)
    ensures output == Output(content)
  {
    var lines := Split(content, '\n');
    var result := RewriteLines(lines);
    output := Join(result, "\n");
  }

  /** Lines without a candidate are copied unchanged. */
  lemma {:induction false} ScanIdentity(lines: seq<string>, i: nat)
    requires i <= |lines|
    requires forall k :: i <= k < |lines| ==> !IsCandidate(lines[k])
    ensures ScanFrom(lines, i) == lines[i..]
    decreases |lines| - i
  {
    if i < |lines| {
      StepCopied(lines, i);
      ScanIdentity(lines, i + 1);
      assert lines[i..] == [lines[i]] + lines[i + 1..];
    }
  }

  /** Pass 2 leaves a text without candidate lines as it is. */
  lemma OutputIdentity(content: string)
    requires forall k :: 0 <= k < |Split(content, '\n')| ==> !IsCandidate(Split(content, '\n')[k])
    ensures Output(content) == content
  {
    var lines := Split(content, '\n');
    ScanIdentity(lines, 0);
    assert lines[0..] == lines;
    JoinSplit(content, '\n');
  }

  /** `Closing` returns the first balancing line it meets. */
  lemma {:induction false} ClosingAt(lines: seq<string>, start: nat, from: nat, j: nat)
    requires start <= from <= j < |lines| && Balances(lines, start, j)
    requires forall m :: from <= m < j ==> !Balances(lines, start, m)
    ensures Closing(lines, start, from) == Some(j)
    decreases j - from
  {
    if from < j {
      ClosingAt(lines, start, from + 1, j);
    }
  }

  /** The span from line `i` runs to the first line `j` at which the parentheses
      balance, and the scan goes on after `j`. */
  lemma SpanCloses(lines: seq<string>, i: nat, j: nat)
    requires i <= j < |lines| && Balances(lines, i, j) && Unbalanced(lines, i, j)
    ensures Span(lines, i) == (lines[i..j + 1], j + 1)
  {
    ClosingAt(lines, i, i, j);
  }

  /** A candidate line whose parentheses balance on their own is a span by itself. */
  lemma SingleLineSpan(lines: seq<string>, i: nat)
    requires i < |lines| && Delta(lines[i]) == 0
    ensures Span(lines, i) == ([lines[i]], i + 1)
  {
    DepthSnoc(lines, i, i);
    assert lines[i..i] == [];
    SpanCloses(lines, i, i);
    assert lines[i..i + 1] == [lines[i]];
  }

  /** When the parentheses never balance, the span is every remaining line, but
      the scan goes on at the line after `i`: those lines are looked at again. */
  lemma UnbalancedSpan(lines: seq<string>, i: nat)
    requires i < |lines| && Unbalanced(lines, i, |lines|)
    ensures Span(lines, i) == (lines[i..], i + 1)
  {
    ClosingFirst(lines, i, i);
  }

  /** An unbalanced span that is not converted is output, and then its lines
      after the first are scanned and output once more. */
  lemma UnbalancedRepeats(lines: seq<string>, i: nat)
    requires i < |lines| && IsCandidate(lines[i]) && Unbalanced(lines, i, |lines|)
    requires LabelCall.Find(Join(lines[i..], "\n")).None?
    ensures ScanFrom(lines, i) == lines[i..] + ScanFrom(lines, i + 1)
  {
    UnbalancedSpan(lines, i);
    StepUnparsed(lines, i);
  }

  /** An unbalanced span in which the call is found becomes the block, and the
      scan still goes on at the line after `i`: the span's later lines are not
      dropped but scanned, and output, after the block. */
  lemma UnbalancedConverted(lines: seq<string>, i: nat, c: LabelCall.Call)
    requires i < |lines| && IsCandidate(lines[i]) && Unbalanced(lines, i, |lines|)
    requires LabelCall.Find(Join(lines[i..], "\n")) == Some(c)
    ensures ScanFrom(lines, i) == [Block(c)] + ScanFrom(lines, i + 1)
  {
    UnbalancedSpan(lines, i);
    StepParsed(lines, i, c);
  }

  /** When the child has no line break, the block is one line for up to two
      attributes and `n + 6` lines for `n` attributes otherwise, one per
      attribute in their order. */
  lemma BlockLines(c: LabelCall.Call)
    requires '\n' !in c.child
    ensures var props := PropsOf(Split(Strip(c.props), '\n'));
      |props| <= 2 ==> Split(Block(c), '\n') == [Block(c)]
    ensures var props := PropsOf(Split(Strip(c.props), '\n'));
      |props| > 2 ==> (Split(Block(c), '\n') == Rows(Indent, props, c.child)
                       && |Split(Block(c), '\n')| == |props| + 6)
  {
    var lines := Split(Strip(c.props), '\n');
    PropsOfOneLine(lines);
    var props := PropsOf(lines);
    LayoutLines(Indent, props, c.child);
  }
}
