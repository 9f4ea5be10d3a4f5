/**
  What the completeness check promises about its result: the missing labels
  are exactly the labels of the unanswered questions, in declared order and
  at most one per question; an absent keyword is always reported; a blank
  answer reports all six questions; and the answer test reads the first
  word after the segment's last colon.
 */
module ObservationFacts {
  import opened Strings
  import opened Flatten
  import opened Observation

  // ---------------------------------------------------------------------------
  // The result as a selection of the question list

  /** Whether each question of qs is missing from the text, by position. */
  function MissingFlags(text: string, qs: seq<Question>): (flags: seq<bool>)
    ensures |flags| == |qs|
  {
    seq(|qs|, i requires 0 <= i < |qs| => IsMissing(text, qs, i))
  }

  /** The labels of the first n questions whose flag is set, in order. */
  function Picked(qs: seq<Question>, flags: seq<bool>, n: nat): seq<string>
    requires n <= |qs| && n <= |flags|
  {
    if n == 0 then []
    else Picked(qs, flags, n - 1) + (if flags[n - 1] then [qs[n - 1].title] else [])
  }

  /** The positions among the first n whose flag is set, in order. */
  function PickedIndices(flags: seq<bool>, n: nat): seq<nat>
    requires n <= |flags|
  {
    if n == 0 then []
    else PickedIndices(flags, n - 1) + (if flags[n - 1] then [n - 1] else [])
  }

  /** The picked positions lie below n and rise strictly. */
  lemma {:induction false} PickedIndicesIncrease(flags: seq<bool>, n: nat)
    requires n <= |flags|
    ensures forall k :: 0 <= k < |PickedIndices(flags, n)| ==> PickedIndices(flags, n)[k] < n
    ensures forall a, b :: 0 <= a < b < |PickedIndices(flags, n)| ==>
      PickedIndices(flags, n)[a] < PickedIndices(flags, n)[b]
  {
    if n > 0 {
      PickedIndicesIncrease(flags, n - 1);
      var idx0 := PickedIndices(flags, n - 1);
      if flags[n - 1] {
        var idx := idx0 + [n - 1];
        assert PickedIndices(flags, n) == idx;
        assert forall k :: 0 <= k < |idx0| ==> idx[k] == idx0[k];
      } else {
        assert PickedIndices(flags, n) == idx0;
      }
    }
  }

  /** A position is picked exactly when its flag is set. */
  lemma {:induction false} PickedIndicesMembers(flags: seq<bool>, n: nat)
    requires n <= |flags|
    ensures forall i :: 0 <= i < n ==> (i in PickedIndices(flags, n) <==> flags[i])
  {
    if n > 0 {
      PickedIndicesMembers(flags, n - 1);
      PickedIndicesIncrease(flags, n - 1);
      var idx0 := PickedIndices(flags, n - 1);
      forall k | 0 <= k < |idx0| ensures idx0[k] != n - 1 {
      }
      assert n - 1 !in idx0;
      if flags[n - 1] {
        assert PickedIndices(flags, n) == idx0 + [n - 1];
        assert forall i :: i in idx0 + [n - 1] <==> i in idx0 || i == n - 1;
      }
    }
  }

  /** The picked labels are the labels at the picked positions. */
  lemma {:induction false} PickedAtIndices(qs: seq<Question>, flags: seq<bool>, n: nat)
    requires n <= |qs| && n <= |flags|
    ensures |Picked(qs, flags, n)| == |PickedIndices(flags, n)| <= n
    ensures forall k :: 0 <= k < |PickedIndices(flags, n)| ==>
      PickedIndices(flags, n)[k] < |qs| && Picked(qs, flags, n)[k] == qs[PickedIndices(flags, n)[k]].title
  {
    PickedIndicesIncrease(flags, n);
    if n > 0 {
      PickedAtIndices(qs, flags, n - 1);
      var m0, idx0 := Picked(qs, flags, n - 1), PickedIndices(flags, n - 1);
      if flags[n - 1] {
        var m, idx := m0 + [qs[n - 1].title], idx0 + [n - 1];
        assert forall k :: 0 <= k < |idx0| ==> idx[k] == idx0[k] && m[k] == m0[k];
      }
    }
  }

  /** The missing labels are the picked labels of any flag list that agrees
      with the missing questions. */
  lemma {:induction false} MissingUpToPicked(text: string, qs: seq<Question>, flags: seq<bool>, n: nat)
    requires n <= |qs| == |flags|
    requires forall i {:trigger IsMissing(text, qs, i)} :: 0 <= i < |qs| ==> flags[i] == IsMissing(text, qs, i)
    ensures MissingUpTo(text, qs, n) == Picked(qs, flags, n)
  {
    if n > 0 {
      MissingUpToPicked(text, qs, flags, n - 1);
      var tail := if IsMissing(text, qs, n - 1) then [qs[n - 1].title] else [];
      assert flags[n - 1] == IsMissing(text, qs, n - 1);
      var done := MissingUpTo(text, qs, n - 1);
      assert done == Picked(qs, flags, n - 1);
      assert MissingUpTo(text, qs, n) == done + tail;
    }
  }

  /** The missing labels are the labels of the missing questions, taken in
      increasing question order: a subsequence of the label list, one entry
      per missing question and none for an answered one. */
  lemma MissingSelects(text: string, qs: seq<Question>)
    ensures var m, idx := MissingLabels(text, qs), PickedIndices(MissingFlags(text, qs), |qs|);
      && |m| == |idx| <= |qs|
      && (forall k :: 0 <= k < |idx| ==> idx[k] < |qs| && m[k] == qs[idx[k]].title)
      && (forall a, b :: 0 <= a < b < |idx| ==> idx[a] < idx[b])
      && (forall i :: 0 <= i < |qs| ==> (i in idx <==> IsMissing(text, qs, i)))
  {
    var flags := MissingFlags(text, qs);
    MissingUpToPicked(text, qs, flags, |qs|);
    PickedAtIndices(qs, flags, |qs|);
    PickedIndicesIncrease(flags, |qs|);
    PickedIndicesMembers(flags, |qs|);
  }

  /** check_reporter_observation reports at most one label per question. */
  lemma MissingBounded(text: string, qs: seq<Question>)
    ensures |MissingLabels(text, qs)| <= |qs|
  {
    MissingSelects(text, qs);
  }

  /** With distinct labels (as the six fixed ones are) no label is reported twice. */
  lemma MissingNoDuplicates(text: string, qs: seq<Question>)
    requires DistinctLabels(qs)
    ensures var m := MissingLabels(text, qs);
      forall a, b :: 0 <= a < b < |m| ==> m[a] != m[b]
  {
    MissingSelects(text, qs);
  }

  /** A missing question's label is always reported, and with distinct
      labels a reported label belongs to a missing question. */
  lemma MissingExactly(text: string, qs: seq<Question>, i: nat)
    requires i < |qs|
    ensures IsMissing(text, qs, i) ==> qs[i].title in MissingLabels(text, qs)
    ensures DistinctLabels(qs) && qs[i].title in MissingLabels(text, qs) ==> IsMissing(text, qs, i)
  {
    var m, idx := MissingLabels(text, qs), PickedIndices(MissingFlags(text, qs), |qs|);
    MissingSelects(text, qs);
    if IsMissing(text, qs, i) {
      var k :| 0 <= k < |idx| && idx[k] == i;
      assert m[k] == qs[i].title;
    }
    if DistinctLabels(qs) && qs[i].title in m {
      var k :| 0 <= k < |m| && m[k] == qs[i].title;
      assert qs[idx[k]].title == qs[i].title;
      assert idx[k] == i;
    }
  }

  /** The six fixed labels are distinct. */
  lemma QuestionsDistinct()
    ensures DistinctLabels(Questions)
  {
  }

  /** When every question is missing, every label is reported, in order. */
  lemma {:induction false} AllMissingUpTo(text: string, qs: seq<Question>, n: nat)
    requires n <= |qs|
    requires forall i :: 0 <= i < |qs| ==> IsMissing(text, qs, i)
    ensures MissingUpTo(text, qs, n) == Labels(qs)[..n]
  {
    if n > 0 {
      AllMissingUpTo(text, qs, n - 1);
      MissingUpToStep(text, qs, n - 1);
      assert Labels(qs)[..n] == Labels(qs)[..n - 1] + [qs[n - 1].title];
    }
  }

  lemma AllMissing(text: string, qs: seq<Question>)
    requires forall i :: 0 <= i < |qs| ==> IsMissing(text, qs, i)
    ensures MissingLabels(text, qs) == Labels(qs)
  {
    AllMissingUpTo(text, qs, |qs|);
    assert Labels(qs)[..|qs|] == Labels(qs);
  }

  // ---------------------------------------------------------------------------
  // Absent keywords and blank answers

  /** A question whose keyword occurs nowhere in the text is reported. */
  lemma AbsentKeywordMissing(text: string, qs: seq<Question>, i: nat)
    requires i < |qs|
    requires forall p :: !OccursAt(text, qs[i].keyword, p)
    ensures qs[i].title in MissingLabels(text, qs)
  {
    FindSpec(text, qs[i].keyword, 0);
    MissingExactly(text, qs, i);
  }

  /** A text without a colon answers nothing: every label is reported. */
  lemma NoColonAllMissing(text: string, qs: seq<Question>)
    requires ':' !in text
    ensures MissingLabels(text, qs) == Labels(qs)
  {
    forall i | 0 <= i < |qs| ensures IsMissing(text, qs, i) {
      var seg := Segment(text, qs, i);
      if seg.Some? {
        var start := Find(text, qs[i].keyword, 0).value;
        assert seg.value == text[start..start + |seg.value|];
        assert ':' !in seg.value;
      }
    }
    AllMissing(text, qs);
  }

  /** A blank document normalises to the empty string. */
  lemma BlankNormalisesEmpty(doc: Document)
    requires Blank(doc.content)
    ensures Normalise(FullText(doc.content)) == ""
  {
    var raw := FullText(doc.content);
    BlankIsSpaces(doc.content);
    assert AllSpace(raw);
    SplitSpec(raw);
  }

  /** Against the empty text every question is reported, in order. */
  lemma EmptyTextAllMissing()
    ensures MissingLabels("", Questions) ==
      ["Initial insights", "VED screenshot", "Health check", "Troubleshooting", "Screenshots", "Logs"]
  {
    forall i | 0 <= i < |Questions| ensures IsMissing("", Questions, i) {
      assert Find("", Questions[i].keyword, 0).None?;
    }
    AllMissing("", Questions);
  }

  /** A present but blank description (only empty text nodes, any number of
      paragraphs) is reported as missing every one of the six details. */
  lemma BlankDocumentAllMissing(doc: Document)
    requires Blank(doc.content)
    ensures CheckResult(Present(doc)) ==
      ["Initial insights", "VED screenshot", "Health check", "Troubleshooting", "Screenshots", "Logs"]
  {
    BlankNormalisesEmpty(doc);
    EmptyTextAllMissing();
  }

  // ---------------------------------------------------------------------------
  // The answer test

  lemma FirstWordOfWord(s: string)
    requires s != [] && !IsSpace(s[0])
    ensures FirstWord(s) == LeadingWord(s)
  {
  }

  /** Trailing whitespace does not change the first word. */
  lemma {:induction false} FirstWordSpaceSuffix(x: string, q: string)
    requires AllSpace(q)
    ensures FirstWord(x + q) == FirstWord(x)
  {
    if x == [] {
      assert x + q == q;
      SplitSpec(q);
    } else if IsSpace(x[0]) {
      assert x == [x[0]] + x[1..];
      assert x + q == [x[0]] + (x[1..] + q);
      SplitSkipsSpaces([x[0]], x[1..] + q);
      SplitSkipsSpaces([x[0]], x[1..]);
      FirstWordSpaceSuffix(x[1..], q);
    } else {
      FirstWordOfWord(x);
      FirstWordOfWord(x + q);
      LeadingWordSpaceSuffix(x, q);
    }
  }

  /** Whitespace around a slice does not change its first word. */
  lemma FirstWordSlice(v: string, a: nat, r: string)
    requires a + |r| <= |v| && r == v[a..a + |r|]
    requires AllSpace(v[..a]) && AllSpace(v[a + |r|..])
    ensures FirstWord(r) == FirstWord(v)
  {
    assert v == v[..a] + (r + v[a + |r|..]);
    SplitSkipsSpaces(v[..a], r + v[a + |r|..]);
    FirstWordSpaceSuffix(r, v[a + |r|..]);
  }

  /** Stripping before splitting changes nothing: the first word of the
      stripped value is the first word of the value. */
  lemma FirstWordStrip(v: string)
    ensures FirstWord(Strip(v)) == FirstWord(v)
  {
    var r := Strip(v);
    StripSpec(v);
    var a :| 0 <= a <= |v| - |r| && r == v[a..a + |r|] && AllSpace(v[..a]) && AllSpace(v[a + |r|..]);
    FirstWordSlice(v, a, r);
  }

  /** The piece after a segment's last colon is the text that follows that colon. */
  lemma LastPiece(segment: string, k: nat)
    requires k < |segment| && segment[k] == ':' && ':' !in segment[k + 1..]
    ensures var parts := SplitOn(segment, ':'); parts[|parts| - 1] == segment[k + 1..]
  {
    SplitOnLast(segment, ':');
  }

  /** Position k holds the last colon of the segment. */
  predicate LastColon(segment: string, k: nat) {
    k < |segment| && segment[k] == ':' && ':' !in segment[k + 1..]
  }

  /** A segment holding a colon has exactly one last colon. */
  lemma LastColonExists(segment: string)
    requires ':' in segment
    ensures exists k: nat :: LastColon(segment, k)
    ensures forall j: nat, k: nat :: LastColon(segment, j) && LastColon(segment, k) ==> j == k
  {
    var parts := SplitOn(segment, ':');
    var last := parts[|parts| - 1];
    SplitOnLast(segment, ':');
    var c := |segment| - |last| - 1;
    assert segment[c + 1..] == last;
    assert LastColon(segment, c);
  }

  /** A segment answers its question exactly when the first word after its
      last colon exists and is no placeholder; `strip()` plays no part. */
  lemma AnsweredAfterLastColon(segment: string)
    ensures Answered(segment) <==>
      exists k: nat :: LastColon(segment, k) &&
        FirstWord(segment[k + 1..]) != "" && FirstWord(segment[k + 1..]) !in InvalidValues
  {
    if ':' in segment {
      LastColonExists(segment);
      var k :| LastColon(segment, k);
      LastPiece(segment, k);
      FirstWordStrip(segment[k + 1..]);
    }
  }

  /** A segment does not answer its question exactly when it holds no colon,
      or the first word after its last colon is empty or a placeholder. */
  lemma UnansweredExactly(segment: string)
    ensures !Answered(segment) <==>
      (':' !in segment ||
       exists k: nat :: LastColon(segment, k) &&
         (FirstWord(segment[k + 1..]) == "" || FirstWord(segment[k + 1..]) in InvalidValues))
  {
    AnsweredAfterLastColon(segment);
    if ':' in segment {
      LastColonExists(segment);
    }
  }

  /** A question whose keyword occurs is reported exactly when its segment
      holds no colon, or the first word after the segment's last colon is
      empty or a placeholder. */
  lemma PresentKeywordMissing(text: string, qs: seq<Question>, i: nat, segment: string)
    requires i < |qs| && Segment(text, qs, i) == Some(segment)
    ensures IsMissing(text, qs, i) <==>
      (':' !in segment ||
       exists k: nat :: LastColon(segment, k) &&
         (FirstWord(segment[k + 1..]) == "" || FirstWord(segment[k + 1..]) in InvalidValues))
  {
    MissingAt(text, qs, i, segment);
    UnansweredExactly(segment);
  }

  /** For the six questions, a present keyword's label is in the reported
      list exactly when its segment holds no colon, or the first word after
      the segment's last colon is empty or a placeholder. */
  lemma PresentKeywordReported(text: string, i: nat, segment: string)
    requires i < |Questions| && Segment(text, Questions, i) == Some(segment)
    ensures Questions[i].title in MissingLabels(text, Questions) <==>
      (':' !in segment ||
       exists k: nat :: LastColon(segment, k) &&
         (FirstWord(segment[k + 1..]) == "" || FirstWord(segment[k + 1..]) in InvalidValues))
  {
    PresentKeywordMissing(text, Questions, i, segment);
    QuestionsDistinct();
    MissingExactly(text, Questions, i);
  }
}
