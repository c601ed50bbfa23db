/** Pass 1 of the converter: the global substitution of
    `createElement(Label,\s*null,\s*"([^"]+)")` by `<Label>\1</Label>`.
    Python's `re.sub` scans the text left to right: at each position it either
    replaces a match and resumes after it, or keeps one character and moves on.
    That scan is a decomposition of the text into chunks. */
module SimpleCall {
  import opened Text
  import opened Pattern

  const Opening := "createElement(Label,"

  /** `createElement\(Label,\s*null,\s*"([^"]+)"\)` */
  const SimplePattern: seq<Atom> :=
    [Lit(Opening), Spaces, Lit("null,"), Spaces, Lit("\""), Run('"'), Lit("\")")]

  /** A character copied as it is, or a matched call with the two runs of
      spaces it contains and its text argument. */
  datatype Chunk = Kept(c: char) | Call(gap1: string, gap2: string, text: string)

  /** A call the pattern accepts: spaces in the gaps, a non-empty quote-free text. */
  predicate ValidCall(ch: Chunk) {
    ch.Call? && AllSpace(ch.gap1) && AllSpace(ch.gap2) && ch.text != [] && '"' !in ch.text
  }

  /** The input text a chunk stands for. */
  function Source(ch: Chunk): string {
    match ch
    case Kept(c) => [c]
    case Call(gap1, gap2, text) => Opening + gap1 + "null," + gap2 + "\"" + text + "\")"
  }

  /** The output text a chunk becomes. */
  function Replacement(ch: Chunk): string {
    match ch
    case Kept(c) => [c]
    case Call(_, _, text) => "<Label>" + text + "</Label>"
  }

  function Sources(cs: seq<Chunk>): string
    decreases |cs|
  {
    if cs == [] then [] else Source(cs[0]) + Sources(cs[1..])
  }

  function Replacements(cs: seq<Chunk>): string
    decreases |cs|
  {
    if cs == [] then [] else Replacement(cs[0]) + Replacements(cs[1..])
  }

  lemma SimplePatternDeterministic()
    ensures Deterministic(SimplePattern)
  {
  }

  lemma SourceIsConcat(ch: Chunk)
    requires ch.Call?
    ensures Source(ch) == Concat([Opening, ch.gap1, "null,", ch.gap2, "\"", ch.text, "\")"])
  {
    var ps := [Opening, ch.gap1, "null,", ch.gap2, "\"", ch.text, "\")"];
    assert Concat(ps[6..]) == "\")" by { assert ps[6..][1..] == []; }
    assert Concat(ps[5..]) == ch.text + "\")" by { assert ps[5..][1..] == ps[6..]; }
    assert Concat(ps[4..]) == "\"" + ch.text + "\")" by { assert ps[4..][1..] == ps[5..]; }
    assert Concat(ps[3..]) == ch.gap2 + "\"" + ch.text + "\")" by { assert ps[3..][1..] == ps[4..]; }
    assert Concat(ps[2..]) == "null," + ch.gap2 + "\"" + ch.text + "\")" by { assert ps[2..][1..] == ps[3..]; }
    assert Concat(ps[1..]) == ch.gap1 + "null," + ch.gap2 + "\"" + ch.text + "\")" by { assert ps[1..][1..] == ps[2..]; }
  }

  /** The anchored match of the pattern at the start of `s`. */
  function MatchCall(s: string): (r: Option<Chunk>)
    ensures r.Some? ==> ValidCall(r.value) && Source(r.value) <= s
  {
    match Match(SimplePattern, s)
    case None => None
    case Some(ps) =>
      MatchSound(SimplePattern, s);
      var ch := Call(ps[1], ps[3], ps[5]);
      assert ps == [Opening, ps[1], "null,", ps[3], "\"", ps[5], "\")"];
      SourceIsConcat(ch);
      Some(ch)
  }

  /** Every text that starts with a call the pattern accepts is matched, and as
      exactly that call. */
  lemma MatchCallComplete(ch: Chunk, s: string)
    requires ValidCall(ch) && Source(ch) <= s
    ensures MatchCall(s) == Some(ch)
  {
    var ps := [Opening, ch.gap1, "null,", ch.gap2, "\"", ch.text, "\")"];
    SourceIsConcat(ch);
    SimplePatternDeterministic();
    assert Fits(SimplePattern, ps);
    MatchComplete(SimplePattern, ps, s);
  }

  /** The chunks are what `re.sub` sees: at each position, the call that
      matches there, or else the single character kept. */
  predicate Leftmost(cs: seq<Chunk>)
    decreases |cs|
  {
    cs == [] ||
    ((if cs[0].Call? then MatchCall(Sources(cs)) == Some(cs[0]) else MatchCall(Sources(cs)).None?)
     && Leftmost(cs[1..]))
  }

  /** The left-to-right scan of `re.sub`. */
  function Chunks(s: string): (cs: seq<Chunk>)
    ensures Sources(cs) == s
    decreases |s|
  {
    if s == [] then []
    else
      match MatchCall(s)
      case Some(ch) =>
        var n := |Source(ch)|;
        assert s == Source(ch) + s[n..];
        var rest := Chunks(s[n..]);
        assert ([ch] + rest)[1..] == rest;
        [ch] + rest
      case None =>
        var rest := Chunks(s[1..]);
        assert ([Kept(s[0])] + rest)[1..] == rest;
        assert s == [s[0]] + s[1..];
        [Kept(s[0])] + rest
  }

  /** The scan is leftmost: each chunk is the call that matches where it
      starts, or a character where none does. */
  lemma {:induction false} ChunksLeftmost(s: string)
    ensures Leftmost(Chunks(s))
    decreases |s|
  {
    var cs := Chunks(s);
    if s != [] {
      match MatchCall(s)
      case Some(ch) =>
        var n := |Source(ch)|;
        ChunksLeftmost(s[n..]);
        assert cs[1..] == Chunks(s[n..]);
      case None =>
        ChunksLeftmost(s[1..]);
        assert cs[1..] == Chunks(s[1..]);
    }
  }

  /** Pass 1 (lines 9-13 of the script). */
  function Rewrite(s: string): string {
    Replacements(Chunks(s))
  }

  /** The scan is the only leftmost decomposition of its input: any sequence of
      chunks with the leftmost property is the one `Chunks` computes. */
  lemma {:induction false} ChunksUnique(cs: seq<Chunk>)
    requires Leftmost(cs)
    ensures Chunks(Sources(cs)) == cs
    decreases |cs|
  {
    if cs != [] {
      var s := Sources(cs);
      var rest := Sources(cs[1..]);
      ChunksUnique(cs[1..]);
      assert s == Source(cs[0]) + rest;
      assert s[|Source(cs[0])|..] == rest;
      ChunksStep(s, cs[0], rest);
      assert [cs[0]] + cs[1..] == cs;
    }
  }

  /** One step of the scan: a call where one starts, a kept character elsewhere. */
  lemma ChunksStep(s: string, ch: Chunk, rest: string)
    requires s == Source(ch) + rest
    requires if ch.Call? then MatchCall(s) == Some(ch) else MatchCall(s).None?
    ensures Chunks(s) == [ch] + Chunks(rest)
  {
    assert s[|Source(ch)|..] == rest;
  }

  /** A call-free chunk sequence is rewritten to the text it came from. */
  lemma {:induction false} KeptOnly(cs: seq<Chunk>)
    requires forall k :: 0 <= k < |cs| ==> cs[k].Kept?
    ensures Replacements(cs) == Sources(cs)
    decreases |cs|
  {
    if cs != [] {
      KeptOnly(cs[1..]);
    }
  }

  /** A text without `createElement(Label,` comes back unchanged. */
  lemma {:induction false} RewriteWithoutCall(s: string)
    requires !Contains(s, Opening)
    ensures Rewrite(s) == s
  {
    NoCallChunks(s);
    KeptOnly(Chunks(s));
  }

  lemma {:induction false} NoCallChunks(s: string)
    requires !Contains(s, Opening)
    ensures forall k :: 0 <= k < |Chunks(s)| ==> Chunks(s)[k].Kept?
    decreases |s|
  {
    if s != [] {
      match MatchCall(s)
      case Some(ch) =>
      case None =>
        NoCallChunks(s[1..]);
        assert Chunks(s) == [Kept(s[0])] + Chunks(s[1..]);
    }
  }

  /** Every matched call is replaced by its text between `<Label>` tags, and the
      text in front of it and after it is rewritten on its own: nothing is lost,
      reordered, or rescanned across the replacement. */
  lemma {:induction false} RewriteAtCall(ch: Chunk, rest: string)
    requires ValidCall(ch)
    ensures Rewrite(Source(ch) + rest) == "<Label>" + ch.text + "</Label>" + Rewrite(rest)
  {
    var s := Source(ch) + rest;
    MatchCallComplete(ch, s);
    assert s[|Source(ch)|..] == rest;
  }

  /** A character where no call starts is copied, and the scan resumes right after it. */
  lemma {:induction false} RewriteAtOther(s: string)
    requires s != [] && MatchCall(s).None?
    ensures Rewrite(s) == [s[0]] + Rewrite(s[1..])
  {
  }

  lemma FirstInPrefix(x: string, s: string, c: char)
    ensures x <= s && IndexOrEnd(x, c) < |x| ==> IndexOrEnd(s, c) == IndexOrEnd(x, c)
  {
    var n := IndexOrEnd(x, c);
    if x <= s && n < |x| {
      assert s[..n] == x[..n];
      IndexOrEndUnique(s, c, n);
    }
  }

  /** The text in front of the first quote of a call, which holds no quote. */
  lemma UpToQuote(gap1: string, gap2: string)
    requires AllSpace(gap1) && AllSpace(gap2)
    ensures '"' !in Opening + gap1 + "null," + gap2
  {
    assert !IsSpace('"');
  }

  /** No call the pattern accepts is a prefix of a call with an empty text:
      both would have their first quote at the same place, and the character
      after it would have to be a quote and not one. */
  lemma NoCallWithEmptyText(ch: Chunk, gap1: string, gap2: string, rest: string)
    requires ValidCall(ch) && AllSpace(gap1) && AllSpace(gap2)
    ensures !(Source(ch) <= Opening + gap1 + "null," + gap2 + "\"\")" + rest)
  {
    var head := Opening + gap1 + "null," + gap2;
    var s := head + "\"" + ("\")" + rest);
    assert s == Opening + gap1 + "null," + gap2 + "\"\")" + rest;
    var chHead := Opening + ch.gap1 + "null," + ch.gap2;
    var src := chHead + "\"" + (ch.text + "\")");
    assert src == Source(ch);
    UpToQuote(gap1, gap2);
    UpToQuote(ch.gap1, ch.gap2);
    FirstOccurrence(head, '"', "\")" + rest);
    FirstOccurrence(chHead, '"', ch.text + "\")");
    FirstInPrefix(src, s, '"');
    assert s[|head| + 1] == '"';
    assert src[|chHead| + 1] == ch.text[0];
  }

  /** An empty text argument is never rewritten: `createElement(Label, null, "")`
      fails to match wherever it stands. */
  lemma EmptyTextNotMatched(gap1: string, gap2: string, rest: string)
    requires AllSpace(gap1) && AllSpace(gap2)
    ensures MatchCall(Opening + gap1 + "null," + gap2 + "\"\")" + rest).None?
  {
    var s := Opening + gap1 + "null," + gap2 + "\"\")" + rest;
    if MatchCall(s).Some? {
      NoCallWithEmptyText(MatchCall(s).value, gap1, gap2, rest);
    }
  }

  /** `createElement(Label, null, "T")` becomes `<Label>T</Label>` for every
      non-empty, quote-free `T`. */
  lemma RewriteSingleCall(text: string)
    requires text != [] && '"' !in text
    ensures Rewrite("createElement(Label, null, \"" + text + "\")") == "<Label>" + text + "</Label>"
  {
    var ch := Call(" ", " ", text);
    assert Source(ch) + [] == "createElement(Label, null, \"" + text + "\")";
    RewriteAtCall(ch, []);
  }

  /** No call starts at position `m` of `s`. */
  predicate NoCallAt(s: string, m: nat) {
    m <= |s| && MatchCall(s[m..]).None?
  }

  /** Text in front of position `k` in which no call starts is copied as it
      is, and the scan goes on at `k`. */
  lemma {:induction false} RewriteKeepsFront(s: string, k: nat)
    requires k <= |s| && forall m :: 0 <= m < k ==> NoCallAt(s, m)
    ensures Rewrite(s) == s[..k] + Rewrite(s[k..])
    decreases k
  {
    if k == 0 {
      assert s[..0] == [] && s[0..] == s;
    } else {
      RewriteKeepsFront(s, k - 1);
      assert NoCallAt(s, k - 1);
      SliceStep(s, k);
      RewriteStep(s[k - 1..], s[k..]);
      Regroup(Rewrite(s), s[..k - 1], Rewrite(s[k - 1..]), [s[k - 1]], Rewrite(s[k..]), s[..k]);
    }
  }

  lemma Regroup(x: string, a: string, y: string, b: string, z: string, ab: string)
    requires x == a + y && y == b + z && ab == a + b
    ensures x == ab + z
  {
  }

  lemma RewriteStep(t: string, u: string)
    requires t != [] && MatchCall(t).None? && u == t[1..]
    ensures Rewrite(t) == [t[0]] + Rewrite(u)
  {
    RewriteAtOther(t);
  }

  lemma SliceStep(s: string, k: nat)
    requires 0 < k <= |s|
    ensures s[k - 1..][1..] == s[k..] && s[k - 1..][0] == s[k - 1]
    ensures s[..k - 1] + [s[k - 1]] == s[..k]
  {
  }

  /** A text shorter than `createElement(Label,` comes back unchanged. */
  lemma RewriteShortText(s: string)
    requires |s| < |Opening|
    ensures Rewrite(s) == s
  {
    ContainsIff(s, Opening);
    RewriteWithoutCall(s);
  }

  /** The first quote of `head + "\"" + tail` is the one after `head`. */
  lemma QuoteSplit(s: string, head: string, tail: string)
    requires '"' !in head && head + "\"" + tail <= s
    ensures IndexOrEnd(s, '"') == |head| && tail <= s[|head| + 1..]
  {
    var src := head + "\"" + tail;
    FirstOccurrence(head, '"', tail);
    FirstInPrefix(src, s, '"');
    assert src[|head| + 1..] == tail;
  }

  /** A call's text, cut at its opening quote. */
  lemma SourceAtQuote(ch: Chunk)
    requires ch.Call?
    ensures Source(ch) == (Opening + ch.gap1 + "null," + ch.gap2) + "\"" + (ch.text + "\")")
  {
  }

  /** Where a call starts, its text is what lies between the first two quotes
      of the input, and a `)` follows the second of them. */
  lemma CallQuotes(ch: Chunk, s: string)
    requires ValidCall(ch) && Source(ch) <= s
    ensures IndexOrEnd(s, '"') < |s|
    ensures var r := s[IndexOrEnd(s, '"') + 1..];
      IndexOrEnd(r, '"') + 1 < |r| && ch.text == r[..IndexOrEnd(r, '"')] && r[IndexOrEnd(r, '"') + 1] == ')'
  {
    var head := Opening + ch.gap1 + "null," + ch.gap2;
    var tail := ch.text + "\")";
    SourceAtQuote(ch);
    UpToQuote(ch.gap1, ch.gap2);
    QuoteSplit(s, head, tail);
    var r := s[|head| + 1..];
    assert ch.text + "\"" + ")" == tail;
    QuoteSplit(r, ch.text, ")");
    assert r[..|ch.text|] == ch.text;
  }

  /** The first two quotes of `head + "\"" + mid + "\"" + t`, and what follows them. */
  lemma TwoQuotes(s: string, head: string, mid: string, t: string)
    requires '"' !in head && '"' !in mid && t != []
    requires s == head + "\"" + (mid + "\"" + t)
    ensures IndexOrEnd(s, '"') == |head|
    ensures var r := s[|head| + 1..]; IndexOrEnd(r, '"') == |mid| && |mid| + 1 < |r| && r[|mid| + 1] == t[0]
  {
    QuoteSplit(s, head, mid + "\"" + t);
    var r := s[|head| + 1..];
    assert r == mid + "\"" + t;
    QuoteSplit(r, mid, t);
  }

  /** The text of a call up to and including its opening quote. */
  function Front(gap1: string, gap2: string): string {
    Opening + gap1 + "null," + gap2 + "\""
  }

  /** Only the first character of that text is a `c`, the one that starts
      `createElement`. */
  lemma FrontHasOneC(gap1: string, gap2: string)
    requires AllSpace(gap1) && AllSpace(gap2)
    ensures forall m :: 1 <= m < |Front(gap1, gap2)| ==> Front(gap1, gap2)[m] != 'c'
  {
    var f := Front(gap1, gap2);
    var more := "reateElement(Label,";
    var rest := gap1 + "null," + gap2 + "\"";
    assert !IsSpace('c');
    assert 'c' !in more;
    assert 'c' !in rest;
    assert f == ['c'] + (more + rest);
    forall m | 1 <= m < |f| ensures f[m] != 'c' {
      assert f[m] in more + rest;
    }
  }

  lemma NoCallOffC(s: string, m: nat)
    requires m < |s| && s[m] != 'c'
    ensures MatchCall(s[m..]).None?
  {
    assert s[m..][0] != Opening[0];
  }

  /** A call whose text is itself a call (with a text not starting with `)`)
      does not match as a whole: its text would end at the inner call's first quote. */
  lemma NoOuterMatch(gap1: string, gap2: string, inner: Chunk)
    requires AllSpace(gap1) && AllSpace(gap2) && ValidCall(inner) && inner.text[0] != ')'
    ensures MatchCall(Source(Call(gap1, gap2, Source(inner)))).None?
  {
    var s := Source(Call(gap1, gap2, Source(inner)));
    var head := Opening + gap1 + "null," + gap2;
    var mid := Opening + inner.gap1 + "null," + inner.gap2;
    UpToQuote(gap1, gap2);
    UpToQuote(inner.gap1, inner.gap2);
    var t := inner.text + "\")" + "\")";
    assert s == head + "\"" + (mid + "\"" + t);
    NoMatchAtQuotes(s, head, mid, t);
  }

  /** No call starts where the character after the second quote is not `)`. */
  lemma NoMatchAtQuotes(s: string, head: string, mid: string, t: string)
    requires '"' !in head && '"' !in mid && t != [] && t[0] != ')'
    requires s == head + "\"" + (mid + "\"" + t)
    ensures MatchCall(s).None?
  {
    TwoQuotes(s, head, mid, t);
    if MatchCall(s).Some? {
      CallQuotes(MatchCall(s).value, s);
    }
  }

  /** Nowhere in front of the inner call does a call start. */
  lemma NoMatchInFront(gap1: string, gap2: string, inner: Chunk)
    requires AllSpace(gap1) && AllSpace(gap2) && ValidCall(inner) && inner.text[0] != ')'
    ensures var s := Source(Call(gap1, gap2, Source(inner)));
      |Front(gap1, gap2)| <= |s| && forall m :: 0 <= m < |Front(gap1, gap2)| ==> NoCallAt(s, m)
  {
    var s := Source(Call(gap1, gap2, Source(inner)));
    var f := Front(gap1, gap2);
    assert s == f + (Source(inner) + "\")");
    FrontHasOneC(gap1, gap2);
    forall m | 0 <= m < |f| ensures NoCallAt(s, m) {
      if m == 0 {
        assert s[0..] == s;
        NoOuterMatch(gap1, gap2, inner);
      } else {
        assert s[m] == f[m];
        NoCallOffC(s, m);
      }
    }
  }

  lemma SplitAtFront(f: string, x: string)
    ensures (f + x)[..|f|] == f && (f + x)[|f|..] == x
  {
  }

  /** The inner call and what follows it. */
  lemma RewriteInnerCall(inner: Chunk)
    requires ValidCall(inner)
    ensures Rewrite(Source(inner) + "\")") == Replacement(inner) + "\")"
  {
    RewriteAtCall(inner, "\")");
    RewriteShortText("\")");
  }

  /** Only the inner call of a call nested in another's text is rewritten. */
  lemma RewriteNested(gap1: string, gap2: string, inner: Chunk)
    requires AllSpace(gap1) && AllSpace(gap2) && ValidCall(inner) && inner.text[0] != ')'
    ensures Rewrite(Source(Call(gap1, gap2, Source(inner)))) == Source(Call(gap1, gap2, Replacement(inner)))
  {
    var f := Front(gap1, gap2);
    var x := Source(inner) + "\")";
    var s := Source(Call(gap1, gap2, Source(inner)));
    assert s == f + x;
    NoMatchInFront(gap1, gap2, inner);
    RewriteKeepsFront(s, |f|);
    SplitAtFront(f, x);
    RewriteInnerCall(inner);
  }

  /** Pass 1 is not idempotent. In `createElement(Label, null, "createElement(Label, null, "y")")`
      only the inner call matches; its replacement leaves an outer call whose
      text is `<Label>y</Label>`, which a second run rewrites again. */
  lemma RewriteNotIdempotent(gap1: string, gap2: string, inner: Chunk)
    requires AllSpace(gap1) && AllSpace(gap2) && ValidCall(inner) && inner.text[0] != ')'
    ensures var once := Source(Call(gap1, gap2, Replacement(inner)));
      Rewrite(Source(Call(gap1, gap2, Source(inner)))) == once
      && Rewrite(once) == "<Label>" + Replacement(inner) + "</Label>" && Rewrite(once) != once
  {
    RewriteNested(gap1, gap2, inner);
    var once := Call(gap1, gap2, Replacement(inner));
    ReplacementIsText(gap1, gap2, inner);
    RewriteAlone(once);
    ReplacementShorter(once);
  }

  /** The replacement of a call can stand as the text of another. */
  lemma ReplacementIsText(gap1: string, gap2: string, inner: Chunk)
    requires AllSpace(gap1) && AllSpace(gap2) && ValidCall(inner)
    ensures ValidCall(Call(gap1, gap2, Replacement(inner)))
  {
  }

  /** A replaced call is shorter than the call. */
  lemma ReplacementShorter(ch: Chunk)
    requires ch.Call?
    ensures |Replacement(ch)| < |Source(ch)|
  {
  }

  /** A lone call is replaced by its text between `<Label>` tags. */
  lemma RewriteAlone(ch: Chunk)
    requires ValidCall(ch)
    ensures Rewrite(Source(ch)) == "<Label>" + ch.text + "</Label>"
  {
    assert Source(ch) + [] == Source(ch);
    RewriteAtCall(ch, []);
  }
}
