/**
  What the checker's specification gives for two concrete texts: the worked
  example of a reporter who answered two of the six questions, and a text
  showing that the segment boundary follows the list order of the
  questions, not their order in the text.
 */
module Scenarios {
  import opened Strings
  import opened Observation
  import opened ObservationFacts

  // ---------------------------------------------------------------------------
  // Shared steps

  /** The first word of a word padded with spaces is the word itself. */
  lemma FirstWordPadded(w: string)
    requires IsWord(w)
    ensures FirstWord([' '] + w + [' ']) == w
  {
    assert [' '] + w + [' '] == [' '] + (w + [' ']);
    SplitSkipsSpaces([' '], w + [' ']);
    SplitWordThen(w, [' ']);
    SplitSkipsSpaces([' '], []);
    assert [' '] + [] == [' '];
  }

  /** A segment ending in a colon, a space, a word and at most one more
      space is answered exactly when the word is no placeholder. */
  lemma ColonThenWord(keyword: string, w: string, tail: string, seg: string)
    requires IsWord(w) && ':' !in w && (tail == [] || tail == [' '])
    requires seg == keyword + ([':', ' '] + w + tail)
    ensures Answered(seg) <==> w !in InvalidValues
  {
    var k := |keyword|;
    var after := seg[k + 1..];
    assert seg[k] == ':';
    assert after == [' '] + w + tail;
    if tail == [] {
      assert after == [' '] + w;
      FirstWordOfPadded(w);
    } else {
      FirstWordPadded(w);
    }
    assert ':' !in after;
    assert LastColon(seg, k);
    AnsweredAfterLastColon(seg);
  }

  lemma FirstWordOfPadded(w: string)
    requires IsWord(w)
    ensures FirstWord([' '] + w) == w
  {
    SplitSkipsSpaces([' '], w);
    SplitWordThen(w, []);
    assert w + [] == w;
  }

  /** `find` from a position before a keyword's occurrence, across text
      without the keyword's first character, finds that occurrence. */
  lemma FoundAfter(text: string, pre: string, kw: string, rest: string, from: nat)
    requires text == pre + kw + rest && kw != [] && from <= |pre| && kw[0] !in pre[from..]
    ensures Find(text, kw, from) == Some(|pre|)
  {
    assert text[from..|pre|] == pre[from..];
    FindSkip(text, kw, from, |pre|);
    assert text[|pre|..|pre| + |kw|] == kw;
  }

  /** The same, from the start of a text whose keyword-sized prefix
      differs from the keyword at some position. */
  lemma FoundAfterMismatch(text: string, pre: string, kw: string, rest: string, j: nat)
    requires text == pre + kw + rest && kw != [] && 1 <= |pre| && kw[0] !in pre[1..]
    requires j < |kw| && text[j] != kw[j]
    ensures Find(text, kw, 0) == Some(|pre|)
  {
    if |kw| <= |text| {
      assert text[..|kw|][j] == text[j];
    }
    FoundAfter(text, pre, kw, rest, 1);
  }

  lemma TakePrefix(a: string, b: string)
    ensures (a + b)[..|a|] == a
  {
  }

  lemma DropPrefix(a: string, b: string)
    ensures (a + b)[|a|..] == b && (a + b)[|a|..|a + b|] == b
  {
  }

  // ---------------------------------------------------------------------------
  // The keywords, spelled out

  const Insights: string := "mention any initial insights"
  const Ved: string := "check internal ved"
  const HealthCheck: string := "share the output of health check script"
  const Troubleshooting: string := "mention the troubleshooting steps"
  const ScreenshotsAdded: string := "did you add screenshots"
  const LogsAdded: string := "add logs or error messages"

  lemma KeywordsSpelledOut()
    ensures Questions[0].keyword == Insights && Questions[1].keyword == Ved
    ensures Questions[2].keyword == HealthCheck && Questions[3].keyword == Troubleshooting
    ensures Questions[4].keyword == ScreenshotsAdded && Questions[5].keyword == LogsAdded
  {
  }

  // ---------------------------------------------------------------------------
  // The worked example

  /** "mention any initial insights: good mention the troubleshooting steps: done" */
  const Example: string := Insights + ": good " + Troubleshooting + ": done"

  /** A character missing from each piece of the example is missing from it. */
  lemma ExampleLacks(c: char)
    requires c !in Insights && c !in ": good " && c !in Troubleshooting && c !in ": done"
    ensures c !in Example
  {
  }

  lemma ExampleLacksVed(from: nat)
    ensures Find(Example, Ved, from) == None
  {
    assert 'v' !in Insights && 'v' !in ": good ";
    assert 'v' !in Troubleshooting && 'v' !in ": done";
    ExampleLacks('v');
    assert Ved[15] == 'v';
    MissingCharNotFound(Example, Ved, 'v', from);
  }

  lemma ExampleLacksHealthCheck(from: nat)
    ensures Find(Example, HealthCheck, from) == None
  {
    assert 'k' !in Insights && 'k' !in ": good ";
    assert 'k' !in Troubleshooting && 'k' !in ": done";
    ExampleLacks('k');
    assert HealthCheck[31] == 'k';
    MissingCharNotFound(Example, HealthCheck, 'k', from);
  }

  lemma ExampleLacksScreenshots(from: nat)
    ensures Find(Example, ScreenshotsAdded, from) == None
  {
    assert 'c' !in Insights && 'c' !in ": good ";
    assert 'c' !in Troubleshooting && 'c' !in ": done";
    ExampleLacks('c');
    assert ScreenshotsAdded[13] == 'c';
    MissingCharNotFound(Example, ScreenshotsAdded, 'c', from);
  }

  /** The only 'r' of the example is in "troubleshooting"; the logs keyword has "rr". */
  lemma ExampleLacksLogs(from: nat)
    ensures Find(Example, LogsAdded, from) == None
  {
    var pre := Insights + ": good " + "mention the t";
    var post := "oubleshooting steps" + ": done";
    ExampleSingleR(pre, post);
    DoubledCharNotFound(Example, LogsAdded, pre, 'r', post, 13, from);
  }

  lemma ExampleSingleR(pre: string, post: string)
    requires pre == Insights + ": good " + "mention the t"
    requires post == "oubleshooting steps" + ": done"
    ensures Example == pre + ['r'] + post && 'r' !in pre && 'r' !in post
    ensures LogsAdded[13] == 'r' && LogsAdded[14] == 'r'
  {
    TroubleshootingR();
    assert 'r' !in Insights && 'r' !in ": good " && 'r' !in "mention the t";
    assert 'r' !in "oubleshooting steps" && 'r' !in ": done";
    var a, b := Insights + ": good ", "mention the t";
    assert Example == a + (b + "r" + "oubleshooting steps") + ": done";
  }

  lemma TroubleshootingR()
    ensures Troubleshooting == "mention the t" + "r" + "oubleshooting steps"
  {
  }

  /** Where the two answered keywords first occur. */
  lemma ExampleFindsInsights()
    ensures Find(Example, Insights, 0) == Some(0)
  {
    assert Example[..|Insights|] == Insights;
  }

  lemma ExampleFindsTroubleshootingAfterInsights()
    ensures Find(Example, Troubleshooting, |Insights|) == Some(|Insights| + 7)
  {
    var pre := Insights + ": good ";
    DropPrefix(Insights, ": good ");
    assert 'm' !in ": good ";
    FoundAfter(Example, pre, Troubleshooting, ": done", |Insights|);
  }

  lemma ExampleFindsTroubleshooting()
    ensures Find(Example, Troubleshooting, 0) == Some(|Insights| + 7)
  {
    var rest := "ention any initial insights" + ": good ";
    ExampleFromM(rest);
    ExampleMismatch();
    FoundAfterMismatch(Example, "m" + rest, Troubleshooting, ": done", 8);
  }

  lemma ExampleFromM(rest: string)
    requires rest == "ention any initial insights" + ": good "
    ensures Example == "m" + rest + Troubleshooting + ": done"
    ensures ("m" + rest)[1..] == rest && 'm' !in rest && |"m" + rest| == |Insights| + 7
  {
    InsightsSplit();
    assert 'm' !in "ention any initial insights" && 'm' !in ": good ";
    DropPrefix("m", rest);
  }

  lemma ExampleMismatch()
    ensures |Example| > 8 && Example[8] != Troubleshooting[8]
  {
    assert Example[8] == Insights[8] == 'a';
  }

  lemma InsightsSplit()
    ensures Insights == "m" + "ention any initial insights"
  {
  }

  /** The first question's segment runs from its keyword to the fourth
      question's keyword, the first later keyword found. */
  lemma ExampleFirstSegment()
    ensures Segment(Example, Questions, 0) == Some(Insights + ": good ")
  {
    var from := |Insights|;
    KeywordsSpelledOut();
    ExampleFindsInsights();
    ExampleFirstEnd();
    SegmentAt(Example, Questions, 0, 0, from + 7);
    TakePrefix(Insights + ": good ", Troubleshooting + ": done");
    assert Example == Insights + ": good " + (Troubleshooting + ": done");
  }

  lemma ExampleFirstEnd()
    ensures SegmentEnd(Example, Questions, 1, |Insights|) == |Insights| + 7
  {
    var from := |Insights|;
    KeywordsSpelledOut();
    ExampleLacksVed(from);
    ExampleLacksHealthCheck(from);
    ExampleFindsTroubleshootingAfterInsights();
  }

  /** The fourth question's segment runs from its keyword to the end of the
      text: no later keyword occurs. */
  lemma ExampleFourthSegment()
    ensures Segment(Example, Questions, 3) == Some(Troubleshooting + ": done")
  {
    var start := |Insights| + 7;
    KeywordsSpelledOut();
    ExampleFindsTroubleshooting();
    ExampleFourthEnd();
    SegmentAt(Example, Questions, 3, start, |Example|);
    var pre := Insights + ": good ";
    assert |pre| == start;
    assert Example == pre + (Troubleshooting + ": done");
    DropPrefix(pre, Troubleshooting + ": done");
  }

  lemma ExampleFourthEnd()
    ensures SegmentEnd(Example, Questions, 4, |Insights| + 7 + |Troubleshooting|) == |Example|
  {
    var from := |Insights| + 7 + |Troubleshooting|;
    KeywordsSpelledOut();
    ExampleLacksScreenshots(from);
    ExampleLacksLogs(from);
  }

  /** Neither keyword holds a colon; both answers are words. */
  lemma ExampleWords()
    ensures IsWord("good") && IsWord("done") && ':' !in "good" && ':' !in "done"
    ensures "good" !in InvalidValues && "done" !in InvalidValues
  {
  }

  lemma ExampleFirstAnswered()
    ensures !IsMissing(Example, Questions, 0)
  {
    ExampleWords();
    ExampleFirstSegment();
    assert ": good " == [':', ' '] + "good" + [' '];
    ColonThenWord(Insights, "good", [' '], Insights + ": good ");
    MissingAt(Example, Questions, 0, Insights + ": good ");
  }

  lemma ExampleFourthAnswered()
    ensures !IsMissing(Example, Questions, 3)
  {
    ExampleWords();
    ExampleFourthSegment();
    assert ": done" == [':', ' '] + "done" + [];
    ColonThenWord(Troubleshooting, "done", [], Troubleshooting + ": done");
    MissingAt(Example, Questions, 3, Troubleshooting + ": done");
  }

  /** Only "Initial insights" and "Troubleshooting" are answered. */
  lemma ExampleAnswers()
    ensures !IsMissing(Example, Questions, 0) && !IsMissing(Example, Questions, 3)
    ensures IsMissing(Example, Questions, 1) && IsMissing(Example, Questions, 2)
    ensures IsMissing(Example, Questions, 4) && IsMissing(Example, Questions, 5)
  {
    KeywordsSpelledOut();
    ExampleFirstAnswered();
    ExampleFourthAnswered();
    ExampleLacksVed(0);
    ExampleLacksHealthCheck(0);
    ExampleLacksScreenshots(0);
    ExampleLacksLogs(0);
  }

  const ExampleFlags: seq<bool> := [false, true, true, false, true, true]

  lemma ExamplePicked()
    ensures Picked(Questions, ExampleFlags, 6) == ["VED screenshot", "Health check", "Screenshots", "Logs"]
  {
  }

  /** The worked example reports the four unanswered questions, in declared order. */
  lemma ExampleMissing()
    ensures MissingLabels(Example, Questions) == ["VED screenshot", "Health check", "Screenshots", "Logs"]
  {
    ExampleAnswers();
    forall i | 0 <= i < |Questions| ensures ExampleFlags[i] == IsMissing(Example, Questions, i) {
      assert i == 0 || i == 1 || i == 2 || i == 3 || i == 4 || i == 5;
    }
    MissingUpToPicked(Example, Questions, ExampleFlags, |Questions|);
    ExamplePicked();
  }

  // ---------------------------------------------------------------------------
  // The boundary follows the list order

  /** "check internal ved: n/a mention any initial insights: yes": the VED
      question is answered with a placeholder, and the first question's
      keyword follows. That keyword is listed earlier, so it does not end the
      VED segment, which runs to the end of the text and is accepted on "yes". */
  const Leak: string := Ved + ": n/a " + Insights + ": yes"

  /** A character missing from each piece of the text is missing from it. */
  lemma LeakLacks(c: char)
    requires c !in Ved && c !in ": n/a " && c !in Insights && c !in ": yes"
    ensures c !in Leak
  {
  }

  lemma LeakLacksHealthCheck(from: nat)
    ensures Find(Leak, HealthCheck, from) == None
  {
    assert 'p' !in Ved && 'p' !in ": n/a ";
    assert 'p' !in Insights && 'p' !in ": yes";
    LeakLacks('p');
    assert HealthCheck[13] == 'p';
    MissingCharNotFound(Leak, HealthCheck, 'p', from);
  }

  lemma LeakLacksTroubleshooting(from: nat)
    ensures Find(Leak, Troubleshooting, from) == None
  {
    assert 'b' !in Ved && 'b' !in ": n/a ";
    assert 'b' !in Insights && 'b' !in ": yes";
    LeakLacks('b');
    assert Troubleshooting[16] == 'b';
    MissingCharNotFound(Leak, Troubleshooting, 'b', from);
  }

  lemma LeakLacksScreenshots(from: nat)
    ensures Find(Leak, ScreenshotsAdded, from) == None
  {
    assert 'u' !in Ved && 'u' !in ": n/a ";
    assert 'u' !in Insights && 'u' !in ": yes";
    LeakLacks('u');
    assert ScreenshotsAdded[6] == 'u';
    MissingCharNotFound(Leak, ScreenshotsAdded, 'u', from);
  }

  /** The only 'r' of the text is in "internal"; the logs keyword has "rr". */
  lemma LeakLacksLogs(from: nat)
    ensures Find(Leak, LogsAdded, from) == None
  {
    var pre := "check inte";
    var post := "nal ved" + ": n/a " + Insights + ": yes";
    LeakSingleR(pre, post);
    DoubledCharNotFound(Leak, LogsAdded, pre, 'r', post, 13, from);
  }

  lemma LeakSingleR(pre: string, post: string)
    requires pre == "check inte"
    requires post == "nal ved" + ": n/a " + Insights + ": yes"
    ensures Leak == pre + ['r'] + post && 'r' !in pre && 'r' !in post
    ensures LogsAdded[13] == 'r' && LogsAdded[14] == 'r'
  {
    VedR();
    assert 'r' !in "check inte" && 'r' !in "nal ved" && 'r' !in ": n/a ";
    assert 'r' !in Insights && 'r' !in ": yes";
    assert Leak == pre + ['r'] + ("nal ved" + ": n/a ") + Insights + ": yes";
  }

  lemma VedR()
    ensures Ved == "check inte" + "r" + "nal ved"
  {
  }

  /** No question listed after the VED question has its keyword in the
      text, so the VED segment is the whole text. */
  lemma LeakSegment()
    ensures Segment(Leak, Questions, 1) == Some(Leak)
  {
    KeywordsSpelledOut();
    TakePrefix(Ved, ": n/a " + Insights + ": yes");
    assert Leak == Ved + (": n/a " + Insights + ": yes");
    assert Find(Leak, Ved, 0) == Some(0);
    LeakEnd();
    SegmentAt(Leak, Questions, 1, 0, |Leak|);
    assert Leak[0..|Leak|] == Leak;
  }

  lemma LeakEnd()
    ensures SegmentEnd(Leak, Questions, 2, |Ved|) == |Leak|
  {
    KeywordsSpelledOut();
    LeakLacksHealthCheck(|Ved|);
    LeakLacksTroubleshooting(|Ved|);
    LeakLacksScreenshots(|Ved|);
    LeakLacksLogs(|Ved|);
  }

  /** The VED question counts as answered although its answer is "n/a":
      the answer read is the word after the segment's last colon. */
  lemma ListOrderLeak()
    ensures !IsMissing(Leak, Questions, 1)
    ensures "VED screenshot" !in MissingLabels(Leak, Questions)
  {
    LeakSegment();
    assert IsWord("yes") && ':' !in "yes" && "yes" !in InvalidValues;
    assert ": yes" == [':', ' '] + "yes" + [];
    ColonThenWord(Ved + ": n/a " + Insights, "yes", [], Leak);
    MissingAt(Leak, Questions, 1, Leak);
    QuestionsDistinct();
    MissingExactly(Leak, Questions, 1);
  }
}
