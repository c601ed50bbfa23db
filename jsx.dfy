/** The JSX written in place of a converted call (lines 87-94 of the script):
    up to two attributes go on one line, more attributes get one line each. */
module Jsx {
  import opened Text

  /** `{indent}render(<Label {" ".join(props)}>{child}</Label>);` */
  function OneLine(indent: string, props: seq<string>, child: string): string {
    indent + "render(<Label " + Join(props, " ") + ">" + child + "</Label>);"
  }

  /** One line per attribute, each indented two tabs past `indent`. */
  function AttrRows(indent: string, props: seq<string>): seq<string> {
    seq(|props|, k requires 0 <= k < |props| => indent + "\t\t" + props[k])
  }

  /** The two lines in front of the attributes. */
  function Head(indent: string): seq<string> {
    [indent + "render(", indent + "\t<Label"]
  }

  /** The four lines after the attributes. */
  function Tail(indent: string, child: string): seq<string> {
    [indent + "\t>", indent + "\t\t" + child, indent + "\t</Label>,", indent + ");"]
  }

  /** The lines of the multi-line form. */
  function Rows(indent: string, props: seq<string>, child: string): seq<string> {
    Head(indent) + AttrRows(indent, props) + Tail(indent, child)
  }

  /** The JSX for a call with attributes `props` and text `child`. */
  function Layout(indent: string, props: seq<string>, child: string): string {
    if |props| <= 2 then OneLine(indent, props, child) else Join(Rows(indent, props, child), "\n")
  }

  /** Lines 88-94: the multi-line form is built by appending to `jsx`. */
  method BuildJsx(indent: string, props: seq<string>, child: string) returns (jsx: string)
    ensures jsx == Layout(indent, props, child)
  {
    if |props| <= 2 {
      jsx := indent + "render(<Label " + Join(props, " ") + ">" + child + "</Label>);";
    } else {
      jsx := indent + "render(\n" + indent + "\t<Label\n";
      HeadText(indent);
      for k := 0 to |props|
        invariant jsx == Join(Head(indent) + AttrRows(indent, props[..k]), "\n") + "\n"
      {
        AttrRowsSnoc(indent, props, k);
        jsx := jsx + indent + "\t\t" + props[k] + "\n";
      }
      TailText(indent, props, child);
      jsx := jsx + indent + "\t>\n" + indent + "\t\t" + child + "\n" + indent + "\t</Label>,\n" + indent + ");";
    }
  }

  lemma HeadText(indent: string)
    ensures Join(Head(indent) + AttrRows(indent, []), "\n") + "\n" == indent + "render(\n" + indent + "\t<Label\n"
  {
    assert Head(indent) + AttrRows(indent, []) == [indent + "render("] + [indent + "\t<Label"];
    JoinCons(indent + "render(", [indent + "\t<Label"], "\n");
  }

  lemma AttrRowsSnoc(indent: string, props: seq<string>, k: nat)
    requires k < |props|
    ensures Join(Head(indent) + AttrRows(indent, props[..k + 1]), "\n") + "\n"
      == Join(Head(indent) + AttrRows(indent, props[..k]), "\n") + "\n" + indent + "\t\t" + props[k] + "\n"
  {
    var row := indent + "\t\t" + props[k];
    assert Head(indent) + AttrRows(indent, props[..k + 1]) == (Head(indent) + AttrRows(indent, props[..k])) + [row];
    JoinSnoc(Head(indent) + AttrRows(indent, props[..k]), row, "\n");
  }

  lemma TailText(indent: string, props: seq<string>, child: string)
    ensures Join(Rows(indent, props, child), "\n")
      == Join(Head(indent) + AttrRows(indent, props[..|props|]), "\n") + "\n"
         + indent + "\t>\n" + indent + "\t\t" + child + "\n" + indent + "\t</Label>,\n" + indent + ");"
  {
    assert props[..|props|] == props;
    JoinAppend(Head(indent) + AttrRows(indent, props), Tail(indent, child), "\n");
    TailJoin(indent, child);
  }

  lemma TailJoin(indent: string, child: string)
    ensures Join(Tail(indent, child), "\n")
      == indent + "\t>\n" + indent + "\t\t" + child + "\n" + indent + "\t</Label>,\n" + indent + ");"
  {
    var t := Tail(indent, child);
    JoinCons(t[0], t[1..], "\n");
    JoinCons(t[1], t[2..], "\n");
    JoinCons(t[2], t[3..], "\n");
  }

  /** When no input holds a line break, the JSX is one line for up to two
      attributes, and otherwise `|props| + 6` lines with the attributes, in
      order, on lines 2 to `|props| + 1`. */
  lemma LayoutLines(indent: string, props: seq<string>, child: string)
    requires '\n' !in indent && '\n' !in child
    requires forall k :: 0 <= k < |props| ==> '\n' !in props[k]
    ensures |props| <= 2 ==> Split(Layout(indent, props, child), '\n') == [OneLine(indent, props, child)]
    ensures |props| > 2 ==> Split(Layout(indent, props, child), '\n') == Rows(indent, props, child)
    ensures |props| > 2 ==> (|Rows(indent, props, child)| == |props| + 6
      && forall k :: 0 <= k < |props| ==> Rows(indent, props, child)[k + 2] == indent + "\t\t" + props[k])
  {
    if |props| <= 2 {
      OneLineLines(indent, props, child);
    } else {
      RowsOneLine(indent, props, child);
      SplitJoin(Rows(indent, props, child), '\n');
    }
  }

  lemma OneLineLines(indent: string, props: seq<string>, child: string)
    requires '\n' !in indent && '\n' !in child
    requires forall k :: 0 <= k < |props| ==> '\n' !in props[k]
    ensures Split(OneLine(indent, props, child), '\n') == [OneLine(indent, props, child)]
  {
    JoinWithout(props, " ", '\n');
    SplitWithoutSep(OneLine(indent, props, child), '\n');
  }

  lemma RowsOneLine(indent: string, props: seq<string>, child: string)
    requires '\n' !in indent && '\n' !in child
    requires forall k :: 0 <= k < |props| ==> '\n' !in props[k]
    ensures forall k :: 0 <= k < |Rows(indent, props, child)| ==> '\n' !in Rows(indent, props, child)[k]
  {
    var rows := Rows(indent, props, child);
    forall k | 0 <= k < |rows| ensures '\n' !in rows[k] {
      if 2 <= k < |props| + 2 {
        assert rows[k] == indent + "\t\t" + props[k - 2];
      }
    }
  }

  /** A call without attributes keeps the space after `<Label`. */
  lemma NoAttributes(indent: string, child: string)
    ensures Layout(indent, [], child) == indent + "render(<Label >" + child + "</Label>);"
  {
  }
}
