/** Property-bag lines to JSX attributes (lines 48-84 of the script): each line
    is trimmed and loses its trailing commas, then the first of nine substring
    tests that fires decides the attribute; the value is the text between the
    first and the second colon. */
module Props {
  import opened Text

  /** The recognised keys, in the order the script tests them. */
  datatype PropKind =
    DataTestId | Required | Disabled | Size | ClassName | HtmlFor | Id | AriaLabel | AriaDescribedBy

  /** Position of the kind's test in the if-chain. */
  function Rank(k: PropKind): nat {
    match k
    case DataTestId => 0
    case Required => 1
    case Disabled => 2
    case Size => 3
    case ClassName => 4
    case HtmlFor => 5
    case Id => 6
    case AriaLabel => 7
    case AriaDescribedBy => 8
  }

  /** The attribute name written into the JSX. */
  function Name(k: PropKind): string {
    match k
    case DataTestId => "data-testid"
    case Required => "required"
    case Disabled => "disabled"
    case Size => "size"
    case ClassName => "className"
    case HtmlFor => "htmlFor"
    case Id => "id"
    case AriaLabel => "aria-label"
    case AriaDescribedBy => "aria-describedby"
  }

  /** The two keys whose value `true` becomes a bare attribute. */
  predicate IsBoolean(k: PropKind) {
    k == Required || k == Disabled
  }

  /** The substrings whose presence selects the kind. */
  function Needles(k: PropKind): (ns: seq<string>)
    ensures 1 <= |ns| <= 2
  {
    match k
    case DataTestId => ["\"data-testid\":", "'data-testid':"]
    case Required => ["required:"]
    case Disabled => ["disabled:"]
    case Size => ["size:"]
    case ClassName => ["className:"]
    case HtmlFor => ["htmlFor:"]
    case Id => ["id:"]
    case AriaLabel => ["\"aria-label\":", "'aria-label':"]
    case AriaDescribedBy => ["\"aria-describedby\":", "'aria-describedby':"]
  }

  /** The test for kind `k` fires on `line`. */
  predicate Fires(k: PropKind, line: string) {
    var ns := Needles(k);
    Contains(line, ns[0]) || (|ns| > 1 && Contains(line, ns[1]))
  }

  /** The if-chain of lines 53-84: the first test that fires wins. */
  function KindOf(line: string): Option<PropKind> {
    if Contains(line, "\"data-testid\":") || Contains(line, "'data-testid':") then Some(DataTestId)
    else if Contains(line, "required:") then Some(Required)
    else if Contains(line, "disabled:") then Some(Disabled)
    else if Contains(line, "size:") then Some(Size)
    else if Contains(line, "className:") then Some(ClassName)
    else if Contains(line, "htmlFor:") then Some(HtmlFor)
    else if Contains(line, "id:") then Some(Id)
    else if Contains(line, "\"aria-label\":") || Contains(line, "'aria-label':") then Some(AriaLabel)
    else if Contains(line, "\"aria-describedby\":") || Contains(line, "'aria-describedby':") then Some(AriaDescribedBy)
    else None
  }

  /** The kind found is the first, in the order of the tests, that fires on
      the line, and none is found only when no test fires. */
  lemma KindOfFirst(line: string)
    ensures KindOf(line).Some? ==> Fires(KindOf(line).value, line)
    ensures KindOf(line).Some? ==> forall k :: Rank(k) < Rank(KindOf(line).value) ==> !Fires(k, line)
    ensures KindOf(line).None? ==> forall k :: !Fires(k, line)
  {
  }

  /** `line.split(':')[1]`: the text between the first colon and the next one,
      or the end of the line. */
  function ColonField(line: string): (r: string)
    requires ':' in line
    ensures var rest := line[IndexOrEnd(line, ':') + 1..]; r == rest[..IndexOrEnd(rest, ':')]
  {
    var n := IndexOrEnd(line, ':');
    SplitAtFirst(line, ':');
    SplitAtFirst(line[n + 1..], ':');
    Split(line, ':')[1]
  }

  /** The value of a property line: `line.split(':')[1].strip()`. */
  function Value(line: string): string
    requires ':' in line
  {
    Strip(ColonField(line))
  }

  /** The attribute built for kind `k` from the value `v`. */
  function Attribute(k: PropKind, v: string): string {
    if IsBoolean(k) then (if v == "true" then Name(k) else Name(k) + "={" + v + "}")
    else Name(k) + "=" + v
  }

  /** How a reader of the JSX recovers the value from an attribute of kind `k`:
      a bare name means `true`, `name={v}` or `name=v` means `v`. */
  function DecodeAttribute(k: PropKind, a: string): Option<string> {
    var n := Name(k);
    if a == n then (if IsBoolean(k) then Some("true") else None)
    else if n + "=" <= a then
      var rest := a[|n| + 1..];
      if !IsBoolean(k) then Some(rest)
      else if |rest| >= 2 && rest[0] == '{' && rest[|rest| - 1] == '}' then Some(rest[1..|rest| - 1])
      else None
    else None
  }

  /** `prop_line.strip().rstrip(',')`. */
  function Clean(raw: string): string {
    TrimTrailing(Strip(raw), ',')
  }

  /** One property line to its attribute, or nothing when the line is dropped. */
  function ClassifyProp(raw: string): Option<string> {
    var line := Clean(raw);
    if line != [] && ':' in line then
      match KindOf(line)
      case Some(k) => Some(Attribute(k, Value(line)))
      case None => None
    else None
  }

  /** A line is dropped exactly when it has no colon or no test fires on it;
      otherwise it becomes the attribute of the first kind that fires, carrying
      the line's value. */
  lemma ClassifyPropMeaning(raw: string)
    ensures ClassifyProp(raw).None? <==> (':' !in Clean(raw) || forall k :: !Fires(k, Clean(raw)))
    ensures ClassifyProp(raw).Some? ==> ':' in Clean(raw) && exists k ::
      Fires(k, Clean(raw)) && (forall j :: Rank(j) < Rank(k) ==> !Fires(j, Clean(raw)))
      && DecodeAttribute(k, ClassifyProp(raw).value) == Some(Value(Clean(raw)))
  {
    var line := Clean(raw);
    KindOfFirst(line);
    if line != [] && ':' in line && KindOf(line).Some? {
      AttributeRoundTrip(KindOf(line).value, Value(line));
    }
  }

  /** What one line adds to the attribute list: its attribute, or nothing. */
  function Emit(raw: string): (r: seq<string>)
    ensures |r| <= 1
  {
    match ClassifyProp(raw) case Some(a) => [a] case None => []
  }

  /** The attributes of a sequence of property lines, in line order. */
  function PropsOf(lines: seq<string>): (r: seq<string>)
    ensures |r| <= |lines|
    decreases |lines|
  {
    if lines == [] then [] else Emit(lines[0]) + PropsOf(lines[1..])
  }

  /** The loop of lines 48-84: `props_list` is appended to, line by line. */
  method ConvertProps(propsText: string) returns (props: seq<string>)
    ensures props == PropsOf(Split(propsText, '\n'))
  {
    var propLines := Split(propsText, '\n');
    props := [];
    for k := 0 to |propLines|
      invariant props == PropsOf(propLines[..k])
    {
      var attr := ClassifyProp(propLines[k]);
      PropsOfStep(propLines, k);
      EmitOf(propLines[k]);
      if attr.Some? {
        props := props + [attr.value];
      }
    }
    assert propLines[..|propLines|] == propLines;
  }

  lemma PropsOfStep(lines: seq<string>, k: nat)
    requires k < |lines|
    ensures PropsOf(lines[..k + 1]) == PropsOf(lines[..k]) + Emit(lines[k])
  {
    assert lines[..k + 1] == lines[..k] + [lines[k]];
    PropsOfSnoc(lines[..k], lines[k]);
  }

  lemma EmitOf(raw: string)
    ensures Emit(raw) == (if ClassifyProp(raw).Some? then [ClassifyProp(raw).value] else [])
  {
  }

  lemma PropsOfSnoc(lines: seq<string>, raw: string)
    ensures PropsOf(lines + [raw]) == PropsOf(lines) + Emit(raw)
  {
    PropsOfAppend(lines, [raw]);
    assert [raw][1..] == [];
  }

  /** Attributes keep the order of their lines. */
  lemma {:induction false} PropsOfAppend(a: seq<string>, b: seq<string>)
    ensures PropsOf(a + b) == PropsOf(a) + PropsOf(b)
    decreases |a|
  {
    if a != [] {
      assert (a + b)[1..] == a[1..] + b;
      PropsOfAppend(a[1..], b);
    } else {
      assert a + b == b;
    }
  }

  /** A bag whose lines are all unrecognised gives no attributes at all. */
  lemma {:induction false} PropsOfNoneRecognised(lines: seq<string>)
    requires forall k :: 0 <= k < |lines| ==> ClassifyProp(lines[k]).None?
    ensures PropsOf(lines) == []
    decreases |lines|
  {
    if lines != [] {
      PropsOfNoneRecognised(lines[1..]);
    }
  }

  /** Every recognised line contributes exactly one attribute. */
  lemma {:induction false} PropsOfAllRecognised(lines: seq<string>)
    requires forall k :: 0 <= k < |lines| ==> ClassifyProp(lines[k]).Some?
    ensures |PropsOf(lines)| == |lines|
    ensures forall k :: 0 <= k < |lines| ==> PropsOf(lines)[k] == ClassifyProp(lines[k]).value
    decreases |lines|
  {
    if lines != [] {
      var tail := lines[1..];
      assert forall k :: 0 <= k < |tail| ==> ClassifyProp(tail[k]).Some? by {
        forall k | 0 <= k < |tail| ensures ClassifyProp(tail[k]).Some? {
          assert tail[k] == lines[k + 1];
        }
      }
      PropsOfAllRecognised(tail);
      var head := ClassifyProp(lines[0]).value;
      assert Emit(lines[0]) == [head];
      var r := PropsOf(lines);
      assert r == [head] + PropsOf(tail);
      forall k | 0 <= k < |lines| ensures r[k] == ClassifyProp(lines[k]).value {
        if k > 0 {
          assert r[k] == PropsOf(tail)[k - 1];
          assert tail[k - 1] == lines[k];
        }
      }
    }
  }

  /** The attribute keeps the value verbatim: reading it back gives the value. */
  lemma AttributeRoundTrip(k: PropKind, v: string)
    ensures DecodeAttribute(k, Attribute(k, v)) == Some(v)
  {
    var a := Attribute(k, v);
    var n := Name(k);
    if IsBoolean(k) && v != "true" {
      assert a == n + "=" + ("{" + v + "}");
      assert a[|n| + 1..] == "{" + v + "}";
    } else if !IsBoolean(k) {
      assert a == n + "=" + v;
      assert a[|n| + 1..] == v;
    }
  }

  /** A boolean key becomes the bare attribute name exactly when its value is `true`. */
  lemma AttributeBare(k: PropKind, v: string)
    ensures Attribute(k, v) == Name(k) <==> IsBoolean(k) && v == "true"
  {
    if Attribute(k, v) == Name(k) {
      assert |Attribute(k, v)| == |Name(k)|;
    }
  }

  /** The value is cut at the second colon: `className: "a:b"` has value `"a`. */
  lemma ValueStopsAtColon(key: string, v: string, tail: string)
    requires ':' !in key && ':' !in v
    ensures Value(key + ":" + v + ":" + tail) == Strip(v)
  {
    var rest := v + ":" + tail;
    assert key + ":" + v + ":" + tail == key + [':'] + rest;
    FirstOccurrence(key, ':', rest);
    FirstOccurrence(v, ':', tail);
  }

  /** The tests are substring tests: any key that ends in `id`, such as
      `uuid` in `uuid: x`, makes a one-colon line an `id:` line. */
  lemma SubstringCollision(pre: string, post: string)
    requires ':' !in pre && ':' !in post
    ensures KindOf(pre + "id:" + post) == Some(Id)
  {
    var line := pre + "id:" + post;
    var colon := |pre| + 2;
    assert line[|pre|..colon + 1] == "id:";
    assert OccursAt(line, "id:", |pre|);
    ContainsIff(line, "id:");
    assert line[colon - 2] == 'i' && line[colon - 1] == 'd' && line[colon] == ':';
    forall k | 0 <= k < |line| && k != colon
      ensures line[k] != ':'
    {
      if k < |pre| {
        assert line[k] == pre[k];
      } else if k > colon {
        assert line[k] == post[k - colon - 1];
      }
    }
    NeedleOnlyAtColon(line, colon, "\"data-testid\":");
    NeedleOnlyAtColon(line, colon, "'data-testid':");
    NeedleOnlyAtColon(line, colon, "required:");
    NeedleOnlyAtColon(line, colon, "disabled:");
    NeedleOnlyAtColon(line, colon, "size:");
    NeedleOnlyAtColon(line, colon, "className:");
    NeedleOnlyAtColon(line, colon, "htmlFor:");
  }

  /** In a line whose only colon is at `colon`, a needle that ends in a colon
      can occur only as the text that ends there, so it does not occur when the
      two characters before that colon differ from the two before the needle's. */
  lemma NeedleOnlyAtColon(line: string, colon: nat, n: string)
    requires colon < |line| && forall k :: 0 <= k < |line| && k != colon ==> line[k] != ':'
    requires 3 <= |n| && n[|n| - 1] == ':'
    requires colon + 1 >= |n| ==> n[|n| - 3] != line[colon - 2] || n[|n| - 2] != line[colon - 1]
    ensures !Contains(line, n)
  {
    ContainsIff(line, n);
  }

  /** A line without a line break gives an attribute without one: the name is a
      constant and the value is cut out of the line. */
  lemma ClassifyPropOneLine(raw: string)
    requires '\n' !in raw
    ensures ClassifyProp(raw).Some? ==> '\n' !in ClassifyProp(raw).value
  {
    var line := Clean(raw);
    CleanOneLine(raw);
    if line != [] && ':' in line && KindOf(line).Some? {
      ValueOneLine(line);
      AttributeOneLine(KindOf(line).value, Value(line));
    }
  }

  lemma CleanOneLine(raw: string)
    requires '\n' !in raw
    ensures '\n' !in Clean(raw)
  {
    if '\n' in Strip(raw) {
      StripKeeps(raw, '\n');
    }
  }

  lemma ValueOneLine(line: string)
    requires ':' in line && '\n' !in line
    ensures '\n' !in Value(line)
  {
    var rest := line[IndexOrEnd(line, ':') + 1..];
    assert '\n' !in rest;
    if '\n' in Value(line) {
      StripKeeps(ColonField(line), '\n');
    }
  }

  lemma AttributeOneLine(k: PropKind, v: string)
    requires '\n' !in v
    ensures '\n' !in Attribute(k, v)
  {
    assert '\n' !in Name(k);
  }

  /** The attributes of lines without line breaks have none either. */
  lemma {:induction false} PropsOfOneLine(lines: seq<string>)
    requires forall k :: 0 <= k < |lines| ==> '\n' !in lines[k]
    ensures forall k :: 0 <= k < |PropsOf(lines)| ==> '\n' !in PropsOf(lines)[k]
    decreases |lines|
  {
    if lines != [] {
      ClassifyPropOneLine(lines[0]);
      PropsOfOneLine(lines[1..]);
    }
  }
}
