/** The handful of Python string operations the converter relies on:
    `str.isspace`, `strip`, `rstrip(c)`, `count`, `in`, `split(c)` and `join`. */
module Text {

  datatype Option<T> = None | Some(value: T)

  /** Python's whitespace, as used both by the regular-expression class `\s`
      and by `str.strip()` without arguments. */
  predicate IsSpace(c: char) {
    || c == ' '
    || ('\t' <= c <= '\r')
    || ('\U{1c}' <= c <= '\U{1f}')
    || c == '\U{85}' || c == '\U{a0}' || c == '\U{1680}'
    || ('\U{2000}' <= c <= '\U{200a}')
    || c == '\U{2028}' || c == '\U{2029}' || c == '\U{202f}' || c == '\U{205f}' || c == '\U{3000}'
  }

  predicate AllSpace(s: string) {
    forall k :: 0 <= k < |s| ==> IsSpace(s[k])
  }

  /** `s.lstrip()`: the suffix left after dropping every leading space. */
  function TrimStart(s: string): (r: string)
    ensures |r| <= |s| && r == s[|s| - |r|..]
    ensures AllSpace(s[..|s| - |r|])
    ensures r != [] ==> !IsSpace(r[0])
    decreases |s|
  {
    if s != [] && IsSpace(s[0]) then TrimStart(s[1..]) else s
  }

  /** `s.rstrip()`: the prefix left after dropping every trailing space. */
  function TrimEnd(s: string): (r: string)
    ensures |r| <= |s| && r == s[..|r|]
    ensures AllSpace(s[|r|..])
    ensures r != [] ==> !IsSpace(r[|r| - 1])
    decreases |s|
  {
    if s != [] && IsSpace(s[|s| - 1]) then TrimEnd(s[..|s| - 1]) else s
  }

  /** `s.strip()`: a slice of `s` with only spaces cut off on either side. */
  function Strip(s: string): (r: string)
    ensures |r| <= |s|
    ensures r != [] ==> !IsSpace(r[0]) && !IsSpace(r[|r| - 1])
    decreases |s|
  {
    if s != [] && IsSpace(s[0]) then Strip(s[1..])
    else if s != [] && IsSpace(s[|s| - 1]) then Strip(s[..|s| - 1])
    else s
  }

  /** `strip` is `lstrip` followed by `rstrip`. */
  lemma {:induction false} StripIsTrims(s: string)
    ensures Strip(s) == TrimEnd(TrimStart(s))
    decreases |s|
  {
    if s != [] && IsSpace(s[0]) {
      StripIsTrims(s[1..]);
    } else if s != [] && IsSpace(s[|s| - 1]) {
      StripIsTrims(s[..|s| - 1]);
      TrimsAfterLast(s);
    } else {
      assert TrimStart(s) == s;
    }
  }

  lemma TrimsAfterLast(s: string)
    requires s != [] && !IsSpace(s[0]) && IsSpace(s[|s| - 1])
    ensures TrimEnd(TrimStart(s)) == TrimEnd(TrimStart(s[..|s| - 1]))
  {
    assert |s| >= 2;
    assert s[..|s| - 1][0] == s[0];
    assert TrimStart(s[..|s| - 1]) == s[..|s| - 1];
  }

  /** `r` is the slice of `s` from `lo` on, with only spaces on either side of it. */
  predicate SpacesAround(s: string, lo: nat, r: string) {
    lo + |r| <= |s| && r == s[lo..lo + |r|] && AllSpace(s[..lo]) && AllSpace(s[lo + |r|..])
  }

  /** What `strip` cuts off is spaces only, on either side of a slice of `s`. */
  lemma {:induction false} StripSlice(s: string)
    ensures exists lo: nat :: SpacesAround(s, lo, Strip(s))
    decreases |s|
  {
    if s != [] && IsSpace(s[0]) {
      StripSlice(s[1..]);
      var lo: nat :| SpacesAround(s[1..], lo, Strip(s[1..]));
      SpacesAroundCons(s, lo, Strip(s[1..]));
      assert Strip(s) == Strip(s[1..]) && SpacesAround(s, lo + 1, Strip(s));
    } else if s != [] && IsSpace(s[|s| - 1]) {
      StripSlice(s[..|s| - 1]);
      var lo: nat :| SpacesAround(s[..|s| - 1], lo, Strip(s[..|s| - 1]));
      SpacesAroundSnoc(s, lo, Strip(s[..|s| - 1]));
      assert Strip(s) == Strip(s[..|s| - 1]) && SpacesAround(s, lo, Strip(s));
    } else {
      assert s[0..0 + |s|] == s && s[..0] == [] && s[|s|..] == [];
      assert Strip(s) == s && SpacesAround(s, 0, Strip(s));
    }
  }

  lemma SpacesAroundCons(s: string, lo: nat, r: string)
    requires s != [] && IsSpace(s[0]) && SpacesAround(s[1..], lo, r)
    ensures SpacesAround(s, lo + 1, r)
  {
    assert s[1..][lo..lo + |r|] == s[lo + 1..lo + 1 + |r|];
    assert s[1..][lo + |r|..] == s[lo + 1 + |r|..];
    var front := s[..lo + 1];
    forall k | 0 <= k < |front| ensures IsSpace(front[k]) {
      if k > 0 {
        assert front[k] == s[1..][..lo][k - 1];
      }
    }
  }

  lemma SpacesAroundSnoc(s: string, lo: nat, r: string)
    requires s != [] && IsSpace(s[|s| - 1]) && SpacesAround(s[..|s| - 1], lo, r)
    ensures SpacesAround(s, lo, r)
  {
    var u := s[..|s| - 1];
    assert u[lo..lo + |r|] == s[lo..lo + |r|];
    assert u[..lo] == s[..lo];
    var back := s[lo + |r|..];
    forall k | 0 <= k < |back| ensures IsSpace(back[k]) {
      if k < |u| - (lo + |r|) {
        assert back[k] == u[lo + |r|..][k];
      }
    }
  }

  /** `strip` only removes characters. */
  lemma {:induction false} StripKeeps(s: string, c: char)
    requires c in Strip(s)
    ensures c in s
    decreases |s|
  {
    if s != [] && IsSpace(s[0]) {
      StripKeeps(s[1..], c);
    } else if s != [] && IsSpace(s[|s| - 1]) {
      StripKeeps(s[..|s| - 1], c);
    }
  }

  /** `s.rstrip(c)`: the prefix left after dropping every trailing `c`. */
  function TrimTrailing(s: string, c: char): (r: string)
    ensures |r| <= |s| && r == s[..|r|]
    ensures forall k :: |r| <= k < |s| ==> s[k] == c
    ensures r != [] ==> r[|r| - 1] != c
    decreases |s|
  {
    if s != [] && s[|s| - 1] == c then TrimTrailing(s[..|s| - 1], c) else s
  }

  /** `s.count(c)` for a one-character argument. */
  function Count(s: string, c: char): nat
    decreases |s|
  {
    if s == [] then 0 else (if s[0] == c then 1 else 0) + Count(s[1..], c)
  }

  /** `count` is the number of occurrences of `c`. */
  lemma {:induction false} CountOccurrences(s: string, c: char)
    ensures Count(s, c) == multiset(s)[c]
    decreases |s|
  {
    if s != [] {
      CountOccurrences(s[1..], c);
      assert s == [s[0]] + s[1..];
    }
  }

  /** `sub in s`. */
  function Contains(s: string, sub: string): bool
    decreases |s|
  {
    sub <= s || (s != [] && Contains(s[1..], sub))
  }

  /** The position of the first `c` in `s`, or `|s|` when there is none. */
  function IndexOrEnd(s: string, c: char): (n: nat)
    ensures n <= |s| && c !in s[..n]
    ensures n < |s| ==> s[n] == c
    decreases |s|
  {
    if s == [] || s[0] == c then 0 else 1 + IndexOrEnd(s[1..], c)
  }

  /** `IndexOrEnd` is the only position with its two properties. */
  lemma {:induction false} IndexOrEndUnique(s: string, c: char, n: nat)
    requires n <= |s| && c !in s[..n] && (n < |s| ==> s[n] == c)
    ensures IndexOrEnd(s, c) == n
    decreases |s|
  {
    if n > 0 {
      assert s[..n] == [s[0]] + s[1..][..n - 1];
      IndexOrEndUnique(s[1..], c, n - 1);
    }
  }

  /** In `a + [c] + b` with no `c` in `a`, the first `c` is the one after `a`. */
  lemma FirstOccurrence(a: string, c: char, b: string)
    requires c !in a
    ensures IndexOrEnd(a + [c] + b, c) == |a|
    ensures (a + [c] + b)[..|a|] == a && (a + [c] + b)[|a| + 1..] == b
  {
    var s := a + [c] + b;
    assert s[..|a|] == a;
    IndexOrEndUnique(s, c, |a|);
    assert s[|a| + 1..] == b;
  }

  /** `s.split(sep)` for a one-character separator. */
  function Split(s: string, sep: char): (r: seq<string>)
    ensures |r| == Count(s, sep) + 1
    ensures forall k :: 0 <= k < |r| ==> sep !in r[k]
    decreases |s|
  {
    if s == [] then [[]]
    else
      var rest := Split(s[1..], sep);
      if s[0] == sep then [[]] + rest else [[s[0]] + rest[0]] + rest[1..]
  }

  /** `sep.join(parts)`. */
  function Join(parts: seq<string>, sep: string): string
    decreases |parts|
  {
    if |parts| == 0 then []
    else if |parts| == 1 then parts[0]
    else parts[0] + sep + Join(parts[1..], sep)
  }

  /** `sub` occurs in `s` starting at position `k`. */
  predicate OccursAt(s: string, sub: string, k: int) {
    0 <= k && k + |sub| <= |s| && s[k..k + |sub|] == sub
  }

  /** `Contains` agrees with the positional reading of `sub in s`. */
  lemma {:induction false} ContainsIff(s: string, sub: string)
    ensures Contains(s, sub) <==> exists k :: OccursAt(s, sub, k)
    decreases |s|
  {
    if s != [] {
      ContainsIff(s[1..], sub);
      if Contains(s[1..], sub) {
        var k :| OccursAt(s[1..], sub, k);
        assert OccursAt(s, sub, k + 1);
      }
      if sub <= s {
        assert OccursAt(s, sub, 0);
      }
      if exists k :: OccursAt(s, sub, k) {
        var k :| OccursAt(s, sub, k);
        if k > 0 {
          assert OccursAt(s[1..], sub, k - 1);
        } else {
          assert sub <= s;
        }
      }
    } else if sub == [] {
      assert OccursAt(s, sub, 0);
    }
  }

  /** Whatever occurs in a prefix of `s` occurs in `s`. */
  lemma {:induction false} ContainsInPrefix(x: string, s: string, sub: string)
    requires x <= s && Contains(x, sub)
    ensures Contains(s, sub)
    decreases |x|
  {
    if !(sub <= x) {
      assert x != [] && Contains(x[1..], sub);
      assert x[1..] <= s[1..];
      ContainsInPrefix(x[1..], s[1..], sub);
    }
  }

  /** A string that contains `a + b` contains `a`. */
  lemma {:induction false} ContainsLonger(s: string, a: string, b: string)
    requires Contains(s, a + b)
    ensures Contains(s, a)
    decreases |s|
  {
    if !(a + b <= s) {
      ContainsLonger(s[1..], a, b);
    }
  }

  lemma {:induction false} SplitWithoutSep(s: string, sep: char)
    requires sep !in s
    ensures Split(s, sep) == [s]
    decreases |s|
  {
    if s != [] {
      SplitWithoutSep(s[1..], sep);
      assert [s[0]] + s[1..] == s;
    }
  }

  /** The first field is everything up to the first separator; the rest is the
      split of what follows it. */
  lemma {:induction false} SplitAtFirst(s: string, sep: char)
    ensures Split(s, sep)[0] == s[..IndexOrEnd(s, sep)]
    ensures IndexOrEnd(s, sep) < |s| ==> Split(s, sep)[1..] == Split(s[IndexOrEnd(s, sep) + 1..], sep)
    decreases |s|
  {
    if s != [] && s[0] != sep {
      SplitAtFirst(s[1..], sep);
      var n := IndexOrEnd(s[1..], sep);
      assert s[..1 + n] == [s[0]] + s[1..][..n];
      if n < |s[1..]| {
        assert s[1..][n + 1..] == s[1 + n + 1..];
      }
    }
  }

  /** A substring of a field is a substring of the input. */
  lemma {:induction false} SplitFieldContains(s: string, sep: char, k: nat, sub: string)
    requires k < |Split(s, sep)| && Contains(Split(s, sep)[k], sub)
    ensures Contains(s, sub)
    decreases |s|
  {
    if s != [] {
      var rest := Split(s[1..], sep);
      if s[0] == sep {
        if k == 0 {
          assert sub == [];
        } else {
          assert Split(s, sep)[k] == rest[k - 1];
          SplitFieldContains(s[1..], sep, k - 1, sub);
        }
      } else if k == 0 {
        var f := [s[0]] + rest[0];
        SplitAtFirst(s[1..], sep);
        assert rest[0] <= s[1..];
        assert f <= s;
        ContainsInPrefix(f, s, sub);
      } else {
        assert Split(s, sep)[k] == rest[k];
        SplitFieldContains(s[1..], sep, k, sub);
      }
    } else {
      assert Split(s, sep)[k] == s;
    }
  }

  lemma JoinCons(x: string, parts: seq<string>, sep: string)
    requires |parts| >= 1
    ensures Join([x] + parts, sep) == x + sep + Join(parts, sep)
  {
    assert ([x] + parts)[1..] == parts;
  }

  lemma JoinSnoc(parts: seq<string>, x: string, sep: string)
    requires |parts| >= 1
    ensures Join(parts + [x], sep) == Join(parts, sep) + sep + x
    decreases |parts|
  {
    if |parts| == 1 {
      assert parts + [x] == [parts[0]] + [x];
      JoinCons(parts[0], [x], sep);
    } else {
      assert parts + [x] == [parts[0]] + (parts[1..] + [x]);
      JoinCons(parts[0], parts[1..] + [x], sep);
      JoinSnoc(parts[1..], x, sep);
      JoinCons(parts[0], parts[1..], sep);
    }
  }

  /** Joining two non-empty lists of parts: the separator goes between them. */
  lemma {:induction false} JoinAppend(a: seq<string>, b: seq<string>, sep: string)
    requires |a| >= 1 && |b| >= 1
    ensures Join(a + b, sep) == Join(a, sep) + sep + Join(b, sep)
    decreases |a|
  {
    if |a| == 1 {
      assert a + b == [a[0]] + b;
      JoinCons(a[0], b, sep);
    } else {
      assert a + b == [a[0]] + (a[1..] + b);
      JoinCons(a[0], a[1..] + b, sep);
      JoinAppend(a[1..], b, sep);
      JoinCons(a[0], a[1..], sep);
      assert [a[0]] + a[1..] == a;
    }
  }

  lemma JoinIntoHead(x: string, parts: seq<string>, sep: string)
    requires |parts| >= 1
    ensures Join([x + parts[0]] + parts[1..], sep) == x + Join(parts, sep)
  {
    if |parts| > 1 {
      JoinCons(x + parts[0], parts[1..], sep);
      JoinCons(parts[0], parts[1..], sep);
      assert [parts[0]] + parts[1..] == parts;
    }
  }

  /** `sep.join(s.split(sep)) == s`. */
  lemma {:induction false} JoinSplit(s: string, sep: char)
    ensures Join(Split(s, sep), [sep]) == s
    decreases |s|
  {
    if s != [] {
      var rest := Split(s[1..], sep);
      JoinSplit(s[1..], sep);
      if s[0] == sep {
        assert Split(s, sep) == [[]] + rest;
        JoinCons([], rest, [sep]);
      } else {
        assert Split(s, sep) == [[s[0]] + rest[0]] + rest[1..];
        JoinIntoHead([s[0]], rest, [sep]);
      }
    }
  }

  lemma {:induction false} SplitAfterSep(a: string, sep: char, b: string)
    requires sep !in a
    ensures Split(a + [sep] + b, sep) == [a] + Split(b, sep)
    decreases |a|
  {
    if a == [] {
      assert a + [sep] + b == [sep] + b;
      assert ([sep] + b)[1..] == b;
    } else {
      var s := a + [sep] + b;
      assert s[1..] == a[1..] + [sep] + b;
      SplitAfterSep(a[1..], sep, b);
      assert [a[0]] + a[1..] == a;
    }
  }

  /** `s.split(sep)` undoes `sep.join(parts)` when no part holds the separator. */
  lemma {:induction false} SplitJoin(parts: seq<string>, sep: char)
    requires |parts| >= 1
    requires forall k :: 0 <= k < |parts| ==> sep !in parts[k]
    ensures Split(Join(parts, [sep]), sep) == parts
    decreases |parts|
  {
    if |parts| == 1 {
      SplitWithoutSep(parts[0], sep);
    } else {
      JoinCons(parts[0], parts[1..], [sep]);
      SplitAfterSep(parts[0], sep, Join(parts[1..], [sep]));
      SplitJoin(parts[1..], sep);
      assert [parts[0]] + parts[1..] == parts;
    }
  }

  /** Joining parts without `c` with a separator without `c` gives a string without `c`. */
  lemma {:induction false} JoinWithout(parts: seq<string>, sep: string, c: char)
    requires c !in sep
    requires forall k :: 0 <= k < |parts| ==> c !in parts[k]
    ensures c !in Join(parts, sep)
    decreases |parts|
  {
    if |parts| > 1 {
      JoinWithout(parts[1..], sep, c);
    }
  }
}
