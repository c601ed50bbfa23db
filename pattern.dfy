/** The two regular expressions of the converter use only literals, `\s*` and
    negated character classes `[^c]+`. In both, each `\s*` is followed by a
    literal that starts with a non-space character and each `[^c]+` by a literal
    that starts with `c` (`Deterministic`). A pattern with that property can
    match at a given position in at most one way, so it is modelled here by a
    greedy left-to-right matcher instead of a general regular-expression
    engine. */
module Pattern {
  import opened Text

  /** One element of a pattern: a literal, `\s*`, or `[^stop]+`. */
  datatype Atom = Lit(text: string) | Spaces | Run(stop: char)

  /** `piece` is a text that `a` can match on its own. */
  predicate FitsAtom(a: Atom, piece: string) {
    match a
    case Lit(t) => piece == t
    case Spaces => AllSpace(piece)
    case Run(c) => piece != [] && c !in piece
  }

  /** `pieces` are the texts matched, in order, by the atoms of `p`. */
  predicate Fits(p: seq<Atom>, pieces: seq<string>) {
    |pieces| == |p| && forall k :: 0 <= k < |p| ==> FitsAtom(p[k], pieces[k])
  }

  function Concat(pieces: seq<string>): string
    decreases |pieces|
  {
    if pieces == [] then [] else pieces[0] + Concat(pieces[1..])
  }

  /** The greedy matcher for one atom: how many characters it takes, if any. */
  function MatchAtom(a: Atom, s: string): (r: Option<nat>)
    ensures r.Some? ==> r.value <= |s| && FitsAtom(a, s[..r.value])
  {
    match a
    case Lit(t) => if t <= s then Some(|t|) else None
    case Spaces => Some(|s| - |TrimStart(s)|)
    case Run(c) => var n := IndexOrEnd(s, c); if n == 0 then None else Some(n)
  }

  /** An anchored match of `p` at the start of `s`; the result holds the text
      each atom matched (the regular expression's groups among them). */
  function Match(p: seq<Atom>, s: string): (r: Option<seq<string>>)
    ensures r.Some? ==> |r.value| == |p|
    decreases |p|
  {
    if p == [] then Some([])
    else
      match MatchAtom(p[0], s)
      case None => None
      case Some(n) =>
        match Match(p[1..], s[n..])
        case None => None
        case Some(rest) => Some([s[..n]] + rest)
  }

  /** The matcher is sound: what it returns fits the atoms and is a prefix of `s`. */
  lemma {:induction false} MatchSound(p: seq<Atom>, s: string)
    ensures Match(p, s).Some? ==> Fits(p, Match(p, s).value) && Concat(Match(p, s).value) <= s
    decreases |p|
  {
    if p != [] && MatchAtom(p[0], s).Some? {
      var n := MatchAtom(p[0], s).value;
      MatchSound(p[1..], s[n..]);
      if Match(p[1..], s[n..]).Some? {
        var rest := Match(p[1..], s[n..]).value;
        FitsCons(p, s[..n], rest);
        ConcatCons(s[..n], rest);
        PrefixAfter(s, n, Concat(rest));
      }
    }
  }

  lemma FitsCons(p: seq<Atom>, piece: string, rest: seq<string>)
    requires p != [] && FitsAtom(p[0], piece) && Fits(p[1..], rest)
    ensures Fits(p, [piece] + rest)
  {
    var pieces := [piece] + rest;
    forall k | 0 <= k < |p| ensures FitsAtom(p[k], pieces[k]) {
      if k > 0 {
        assert p[k] == p[1..][k - 1];
      }
    }
  }

  lemma ConcatCons(piece: string, rest: seq<string>)
    ensures Concat([piece] + rest) == piece + Concat(rest)
  {
    assert ([piece] + rest)[1..] == rest;
  }

  lemma PrefixAfter(s: string, n: nat, t: string)
    requires n <= |s| && t <= s[n..]
    ensures s[..n] + t <= s
  {
    assert s == s[..n] + s[n..];
  }

  /** What makes greedy matching exact: each `\s*` is followed by a literal that
      starts with a non-space, each `[^c]+` by a literal that starts with `c`. */
  predicate Stops(a: Atom, c: char) {
    match a
    case Lit(_) => true
    case Spaces => !IsSpace(c)
    case Run(stop) => c == stop
  }

  predicate Deterministic(p: seq<Atom>) {
    forall k :: 0 <= k < |p| && !p[k].Lit? ==>
      k + 1 < |p| && p[k + 1].Lit? && p[k + 1].text != [] && Stops(p[k], p[k + 1].text[0])
  }

  /** Greedy matching of one atom is exact when the text after `piece` starts
      with a character that stops the atom. */
  lemma MatchAtomExact(a: Atom, piece: string, s: string)
    requires FitsAtom(a, piece) && piece <= s
    requires !a.Lit? ==> |piece| < |s| && Stops(a, s[|piece|])
    ensures MatchAtom(a, s) == Some(|piece|)
  {
  }

  lemma DeterministicTail(p: seq<Atom>)
    requires p != [] && Deterministic(p)
    ensures Deterministic(p[1..])
  {
    forall k | 0 <= k < |p[1..]| && !p[1..][k].Lit?
      ensures k + 1 < |p[1..]| && p[1..][k + 1].Lit? && p[1..][k + 1].text != []
        && Stops(p[1..][k], p[1..][k + 1].text[0])
    {
      assert p[1..][k] == p[k + 1];
    }
  }

  lemma FitsTail(p: seq<Atom>, pieces: seq<string>)
    requires p != [] && Fits(p, pieces)
    ensures Fits(p[1..], pieces[1..])
  {
    forall k | 0 <= k < |p[1..]| ensures FitsAtom(p[1..][k], pieces[1..][k]) {
      assert p[1..][k] == p[k + 1];
    }
  }

  /** The matcher finds every match: if `s` starts with texts that fit the atoms
      of a deterministic pattern, the matcher returns exactly those texts. */
  lemma {:induction false} MatchComplete(p: seq<Atom>, pieces: seq<string>, s: string)
    requires Deterministic(p) && Fits(p, pieces) && Concat(pieces) <= s
    ensures Match(p, s) == Some(pieces)
    decreases |p|
  {
    if p != [] {
      var n := |pieces[0]|;
      assert Concat(pieces) == pieces[0] + Concat(pieces[1..]);
      assert pieces[0] <= s && s[..n] == pieces[0];
      if !p[0].Lit? {
        // the character that ends this atom's text starts the next literal
        assert FitsAtom(p[1], pieces[1]);
        assert Concat(pieces[1..]) == pieces[1] + Concat(pieces[2..]);
        assert n < |s| && s[n] == p[1].text[0];
      }
      assert FitsAtom(p[0], pieces[0]);
      MatchAtomExact(p[0], pieces[0], s);
      DeterministicTail(p);
      FitsTail(p, pieces);
      assert Concat(pieces[1..]) <= s[n..];
      MatchComplete(p[1..], pieces[1..], s[n..]);
      assert [s[..n]] + pieces[1..] == pieces;
    }
  }

  /** The unanchored search of Python's `re.search`: the first position at or
      after `from` where `p` matches, with the texts matched there. */
  function Search(p: seq<Atom>, s: string, from: nat): (r: Option<(nat, seq<string>)>)
    ensures r.Some? ==> |r.value.1| == |p|
    decreases |s| + 1 - from
  {
    if from > |s| then None
    else if Match(p, s[from..]).Some? then Some((from, Match(p, s[from..]).value))
    else Search(p, s, from + 1)
  }

  /** The search finds the leftmost match at or after `from`. */
  lemma {:induction false} SearchLeftmost(p: seq<Atom>, s: string, from: nat)
    ensures Search(p, s, from).Some? ==> from <= Search(p, s, from).value.0 <= |s|
    ensures Search(p, s, from).Some? ==>
      Match(p, s[Search(p, s, from).value.0..]) == Some(Search(p, s, from).value.1)
    ensures Search(p, s, from).Some? ==>
      forall m :: from <= m < Search(p, s, from).value.0 ==> Match(p, s[m..]).None?
    decreases |s| + 1 - from
  {
    if from <= |s| && Match(p, s[from..]).None? {
      SearchLeftmost(p, s, from + 1);
      var r := Search(p, s, from + 1);
      assert Search(p, s, from) == r;
      if r.Some? {
        forall m | from <= m < r.value.0 ensures Match(p, s[m..]).None? {
          if m > from {
            assert from + 1 <= m;
          }
        }
      }
    }
  }

  /** The search reports no match only when there is none at or after `from`. */
  lemma {:induction false} SearchNone(p: seq<Atom>, s: string, from: nat)
    ensures Search(p, s, from).None? ==> forall m :: from <= m <= |s| ==> Match(p, s[m..]).None?
    decreases |s| + 1 - from
  {
    if from <= |s| && Match(p, s[from..]).None? {
      SearchNone(p, s, from + 1);
      assert Search(p, s, from) == Search(p, s, from + 1);
      if Search(p, s, from).None? {
        forall m | from <= m <= |s| ensures Match(p, s[m..]).None? {
          if m > from {
            assert from + 1 <= m;
          }
        }
      }
    }
  }
}
