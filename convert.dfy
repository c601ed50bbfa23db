/** The converter as a whole: the text of the test file goes through pass 1
    (the substitution of the simple calls) and then through pass 2 (the scan
    over lines). Reading and writing the file are left to the caller. */
module ConvertLabelTests {
  import opened Text
  import SimpleCall
  import Scan

  /** The text written back to the test file for the text read from it. */
  function Converted(content: string): string {
    Scan.Output(SimpleCall.Rewrite(content))
  }

  /** Lines 5-108 of the script, with the file read and written by the caller. */
  method Convert(content: string) returns (out: string)
    ensures out == Converted(content)
  {
    var simplified := SimpleCall.Rewrite(content);
    out := Scan.RewriteText(simplified);
  }

  /** A file in which `createElement(` never occurs is written back unchanged. */
  lemma WithoutCreateElement(content: string)
    requires !Contains(content, "createElement(")
    ensures Converted(content) == content
  {
    assert SimpleCall.Opening == "createElement(" + "Label,";
    if Contains(content, SimpleCall.Opening) {
      ContainsLonger(content, "createElement(", "Label,");
    }
    SimpleCall.RewriteWithoutCall(content);
    var lines := Split(content, '\n');
    forall k | 0 <= k < |lines| ensures !Scan.IsCandidate(lines[k]) {
      if Contains(lines[k], "createElement(") {
        SplitFieldContains(content, '\n', k, "createElement(");
      }
    }
    Scan.OutputIdentity(content);
  }
}
