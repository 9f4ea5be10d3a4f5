/**
  `build_comment`: the comment posted on a ticket, either a plain
  acknowledgement or a request listing the missing details one per line.
 */
module Comment {
  import opened Strings

  /** The comment's fixed lines. */
  const Greeting: string := "Hi,"
  const AcknowledgeLine: string := "We acknowledge the issue. We will update further details soon."
  const RequestLine: string := "To proceed further, please provide the following details:"
  const ClosingLine: string := "This will help us analyze the issue faster."

  /** The acknowledgement, and the text around a request's bullet list,
      spelled out from the lines above: "Hi,\n\nWe acknowledge ...\n",
      "Hi,\n\nTo proceed ...:\n\n" and "\n\nThis will help ...\n". */
  const Acknowledgement: string := Greeting + "\n\n" + AcknowledgeLine + "\n"
  const Header: string := Greeting + "\n\n" + RequestLine + "\n\n"
  const Footer: string := "\n\n" + ClosingLine + "\n"

  /** The lines of a request comment above and below the bullet list. */
  const HeaderLines: seq<string> := [Greeting, "", RequestLine, ""]
  const FooterLines: seq<string> := ["", ClosingLine, ""]

  /** One line per missing label, in order: "- " followed by the label. */
  function Bullets(missing: seq<string>): (lines: seq<string>)
    ensures |lines| == |missing|
    ensures forall k :: 0 <= k < |lines| ==> |lines[k]| >= 2 && lines[k][..2] == "- " && lines[k][2..] == missing[k]
  {
    seq(|missing|, k requires 0 <= k < |missing| => "- " + missing[k])
  }

  /** build_comment: the acknowledgement exactly when nothing is missing,
      otherwise the bullet list framed by the request's header and footer. */
  function BuildComment(missing: seq<string>): (r: string)
    ensures missing == [] <==> r == Acknowledgement
    ensures missing != [] ==>
      |r| >= |Header| + |Footer| && r[..|Header|] == Header && r[|r| - |Footer|..] == Footer
  {
    if missing == [] then Acknowledgement
    else
      var body := Join('\n', Bullets(missing));
      var r := Header + body + Footer;
      assert r == Header + (body + Footer);
      assert |Acknowledgement| < |Header| + |Footer|;
      assert r[..|Header|] == Header;
      assert r[|r| - |Footer|..] == Footer;
      r
  }

  /** A request comment is its lines joined by line breaks. */
  lemma CommentLines(missing: seq<string>)
    requires missing != []
    ensures BuildComment(missing) == Join('\n', HeaderLines + Bullets(missing) + FooterLines)
  {
    var b := Bullets(missing);
    JoinAppend('\n', HeaderLines, b);
    JoinAppend('\n', HeaderLines + b, FooterLines);
    HeaderJoined();
    FooterJoined();
  }

  lemma HeaderJoined()
    ensures Join('\n', HeaderLines) + ['\n'] == Header
  {
    assert HeaderLines[1..] == ["", RequestLine, ""];
    assert HeaderLines[1..][1..] == [RequestLine, ""];
    assert HeaderLines[1..][1..][1..] == [""];
    assert Join('\n', [RequestLine, ""]) == RequestLine + "\n";
    assert Join('\n', ["", RequestLine, ""]) == "\n" + (RequestLine + "\n");
    assert Join('\n', HeaderLines) == Greeting + "\n" + ("\n" + (RequestLine + "\n"));
  }

  lemma FooterJoined()
    ensures ['\n'] + Join('\n', FooterLines) == Footer
  {
    assert FooterLines[1..] == [ClosingLine, ""];
    assert FooterLines[1..][1..] == [""];
    assert Join('\n', [ClosingLine, ""]) == ClosingLine + "\n";
    assert Join('\n', FooterLines) == "\n" + (ClosingLine + "\n");
  }

  /** A label is safe to list when it holds no line break. */
  predicate OneLine(missing: seq<string>) {
    forall k :: 0 <= k < |missing| ==> '\n' !in missing[k]
  }

  /** Reading a comment back: the labels it asks for, or None when the text
      is neither the acknowledgement nor a well-formed request. */
  function ReadBack(r: string): (labels: Option<seq<string>>)
    ensures r == Acknowledgement ==> labels == Some([])
  {
    if r == Acknowledgement then Some([])
    else if |r| >= |Header| + |Footer| && r[..|Header|] == Header && r[|r| - |Footer|..] == Footer then
      var lines := SplitOn(r[|Header|..|r| - |Footer|], '\n');
      if forall k :: 0 <= k < |lines| ==> |lines[k]| >= 2 && lines[k][..2] == "- "
      then Some(seq(|lines|, k requires 0 <= k < |lines| => lines[k][2..]))
      else None
    else None
  }

  /** Every list of one-line labels is recovered from its comment. */
  lemma CommentRoundTrip(missing: seq<string>)
    requires OneLine(missing)
    ensures ReadBack(BuildComment(missing)) == Some(missing)
  {
    if missing != [] {
      var b := Bullets(missing);
      var body := Join('\n', b);
      var r := BuildComment(missing);
      assert r == Header + body + Footer;
      assert r[|Header|..|r| - |Footer|] == body;
      forall k | 0 <= k < |b| ensures '\n' !in b[k] {
        assert b[k] == "- " + missing[k];
      }
      SplitOnJoin('\n', b);
      assert seq(|b|, k requires 0 <= k < |b| => b[k][2..]) == missing;
    }
  }

  /** Two label lists of one-line labels give the same comment only when equal. */
  lemma CommentInjective(m1: seq<string>, m2: seq<string>)
    requires OneLine(m1) && OneLine(m2)
    requires BuildComment(m1) == BuildComment(m2)
    ensures m1 == m2
  {
    CommentRoundTrip(m1);
    CommentRoundTrip(m2);
  }
}
