/** The structured call of line 42 of the script:
    `createElement\(\s*Label,\s*\{([^}]+)\},\s*"([^"]+)"\s*\)`, searched for
    anywhere in a collected call span. Group 1 is the property bag, group 2 the
    text child. */
module LabelCall {
  import opened Text
  import opened Pattern

  const LabelPattern: seq<Atom> :=
    [Lit("createElement("), Spaces, Lit("Label,"), Spaces, Lit("{"), Run('}'), Lit("},"),
     Spaces, Lit("\""), Run('"'), Lit("\""), Spaces, Lit(")")]

  /** A call as the pattern sees it: four runs of spaces, the text inside the
      braces and the text inside the quotes. */
  datatype Call = Call(gap0: string, gap1: string, props: string, gap2: string, child: string, gap3: string)

  /** The call the pattern accepts: spaces in the gaps, a non-empty bag without
      `}`, a non-empty child without `"`. */
  predicate ValidCall(c: Call) {
    AllSpace(c.gap0) && AllSpace(c.gap1) && AllSpace(c.gap2) && AllSpace(c.gap3)
    && c.props != [] && '}' !in c.props && c.child != [] && '"' !in c.child
  }

  /** The texts the thirteen atoms of the pattern match for call `c`. */
  function Pieces(c: Call): seq<string> {
    ["createElement(", c.gap0, "Label,", c.gap1, "{", c.props, "},", c.gap2, "\"", c.child, "\"", c.gap3, ")"]
  }

  /** The text of call `c`. */
  function Source(c: Call): string {
    Concat(Pieces(c))
  }

  lemma LabelPatternDeterministic()
    ensures Deterministic(LabelPattern)
  {
    var p := LabelPattern;
    forall k | 0 <= k < |p| && !p[k].Lit?
      ensures k + 1 < |p| && p[k + 1].Lit? && p[k + 1].text != [] && Stops(p[k], p[k + 1].text[0])
    {
      assert k == 1 || k == 3 || k == 5 || k == 7 || k == 9 || k == 11;
    }
  }

  lemma ValidFits(c: Call)
    ensures ValidCall(c) <==> Fits(LabelPattern, Pieces(c))
  {
    var ps := Pieces(c);
    if Fits(LabelPattern, ps) {
      assert FitsAtom(LabelPattern[1], ps[1]) && FitsAtom(LabelPattern[3], ps[3]);
      assert FitsAtom(LabelPattern[5], ps[5]) && FitsAtom(LabelPattern[7], ps[7]);
      assert FitsAtom(LabelPattern[9], ps[9]) && FitsAtom(LabelPattern[11], ps[11]);
    }
  }

  /** Texts that fit the pattern are the pieces of a call. */
  lemma FitsShape(ps: seq<string>)
    requires Fits(LabelPattern, ps)
    ensures ps == Pieces(Call(ps[1], ps[3], ps[5], ps[7], ps[9], ps[11]))
  {
    assert FitsAtom(LabelPattern[0], ps[0]) && FitsAtom(LabelPattern[2], ps[2]);
    assert FitsAtom(LabelPattern[4], ps[4]) && FitsAtom(LabelPattern[6], ps[6]);
    assert FitsAtom(LabelPattern[8], ps[8]) && FitsAtom(LabelPattern[10], ps[10]);
    assert FitsAtom(LabelPattern[12], ps[12]);
  }

  /** The call whose pieces are the texts `ps` the atoms matched. */
  function ToCall(ps: seq<string>): Call
    requires |ps| == |LabelPattern|
  {
    Call(ps[1], ps[3], ps[5], ps[7], ps[9], ps[11])
  }

  /** The anchored match of the pattern at the start of `s`. */
  function MatchAt(s: string): Option<Call> {
    match Match(LabelPattern, s)
    case None => None
    case Some(ps) => Some(ToCall(ps))
  }

  /** A call starts at position `m` of `s`. */
  predicate CallAt(s: string, m: nat, c: Call) {
    m <= |s| && ValidCall(c) && Source(c) <= s[m..]
  }

  /** The anchored match is sound: it returns a call the pattern accepts, and
      `s` starts with it. */
  lemma MatchAtSound(s: string)
    ensures MatchAt(s).Some? ==> CallAt(s, 0, MatchAt(s).value)
  {
    MatchSound(LabelPattern, s);
    if MatchAt(s).Some? {
      var ps := Match(LabelPattern, s).value;
      FitsShape(ps);
      ValidFits(MatchAt(s).value);
    }
  }

  /** Every text that starts with a call the pattern accepts is matched, and as
      exactly that call. */
  lemma MatchAtComplete(c: Call, s: string)
    requires ValidCall(c) && Source(c) <= s
    ensures MatchAt(s) == Some(c)
  {
    ValidFits(c);
    LabelPatternDeterministic();
    MatchComplete(LabelPattern, Pieces(c), s);
  }

  /** `re.search(pattern, s)`, reduced to the two groups the script uses. */
  function Find(s: string): Option<Call> {
    match Search(LabelPattern, s, 0)
    case Some((_, ps)) => Some(ToCall(ps))
    case None => None
  }

  /** The search returns the call at the first position where the anchored
      match succeeds, or nothing when it succeeds nowhere. */
  lemma FindFirst(s: string)
    ensures Find(s).Some? ==> exists k :: (0 <= k <= |s| && MatchAt(s[k..]) == Find(s)
                                          && forall m :: 0 <= m < k ==> MatchAt(s[m..]).None?)
    ensures Find(s).None? ==> forall m :: 0 <= m <= |s| ==> MatchAt(s[m..]).None?
  {
    SearchLeftmost(LabelPattern, s, 0);
    SearchNone(LabelPattern, s, 0);
    if Find(s).Some? {
      var k := Search(LabelPattern, s, 0).value.0;
      assert MatchAt(s[k..]) == Find(s);
    }
  }

  /** The search fails exactly when no call the pattern accepts occurs anywhere. */
  lemma FindNone(s: string)
    ensures Find(s).None? <==> forall m: nat, c :: !CallAt(s, m, c)
  {
    FindFirst(s);
    if Find(s).None? {
      forall m: nat, c | CallAt(s, m, c) ensures false {
        MatchAtComplete(c, s[m..]);
      }
    } else {
      FindSound(s);
    }
  }

  /** What the search finds is a call the pattern accepts that occurs in `s`. */
  lemma FindSound(s: string)
    ensures Find(s).Some? ==> exists m: nat :: CallAt(s, m, Find(s).value)
  {
    FindFirst(s);
    if Find(s).Some? {
      var k :| 0 <= k <= |s| && MatchAt(s[k..]) == Find(s);
      MatchAtSound(s[k..]);
      assert s[k..][0..] == s[k..];
      assert CallAt(s, k, Find(s).value);
    }
  }

  /** The search finds the leftmost call: when a call starts at `|pre|` and none
      starts earlier, that call is the one found. */
  lemma FindLeftmost(pre: string, c: Call, post: string)
    requires ValidCall(c)
    requires forall m: nat, d :: m < |pre| ==> !CallAt(pre + Source(c) + post, m, d)
    ensures Find(pre + Source(c) + post) == Some(c)
  {
    var s := pre + Source(c) + post;
    assert s[|pre|..] == Source(c) + post;
    MatchAtComplete(c, s[|pre|..]);
    forall m | 0 <= m < |pre| ensures MatchAt(s[m..]).None? {
      MatchAtSound(s[m..]);
      if MatchAt(s[m..]).Some? {
        assert s[m..][0..] == s[m..];
        assert CallAt(s, m, MatchAt(s[m..]).value);
      }
    }
    FindAt(s, |pre|, c);
  }

  lemma FindAt(s: string, k: nat, c: Call)
    requires k <= |s| && MatchAt(s[k..]) == Some(c)
    requires forall m :: 0 <= m < k ==> MatchAt(s[m..]).None?
    ensures Find(s) == Some(c)
  {
    FindFirst(s);
  }
}
