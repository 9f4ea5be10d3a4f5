/**
  The reporter-answer completeness check. The flattened answer is normalised
  (whitespace runs collapsed to one space, lower-cased); then, for each
  question in declared order, the checker locates the question's keyword,
  cuts the segment from the keyword to the next boundary, and accepts the
  answer when the first word after the segment's last colon is present and is
  not a placeholder. The labels of the questions not accepted are returned,
  in declared order.
 */
module Observation {
  import opened Strings
  import opened Flatten

  /** The value of the ticket's `customfield_10106`: any value Python treats
      as false (the key absent, None, an empty object) is `Falsy`. */
  datatype Field = Falsy | Present(adf: Document)

  /** One required disclosure: the label (`title`) reported when it is missing and the
      keyword that anchors its answer in the text. */
  datatype Question = Question(title: string, keyword: string)

  /** The six questions, in the order that decides the segment boundaries. */
  const Questions: seq<Question> := [
    Question("Initial insights", "mention any initial insights"),
    Question("VED screenshot", "check internal ved"),
    Question("Health check", "share the output of health check script"),
    Question("Troubleshooting", "mention the troubleshooting steps"),
    Question("Screenshots", "did you add screenshots"),
    Question("Logs", "add logs or error messages")
  ]

  /** Placeholder words that do not count as an answer. */
  const InvalidValues: set<string> := {"n/a", "none", "-", "nil"}

  /** The labels of a question list, in order. */
  function Labels(qs: seq<Question>): (ls: seq<string>)
    ensures |ls| == |qs| && forall k :: 0 <= k < |qs| ==> ls[k] == qs[k].title
  {
    seq(|qs|, k requires 0 <= k < |qs| => qs[k].title)
  }

  predicate DistinctLabels(qs: seq<Question>) {
    forall a, b :: 0 <= a < b < |qs| ==> qs[a].title != qs[b].title
  }

  // ---------------------------------------------------------------------------
  // Normalisation: the words of the text, single-spaced and lower-cased

  function Normalise(raw: string): string {
    LowerString(Join(' ', Split(raw)))
  }

  predicate IsLowerCase(t: string) {
    forall k :: 0 <= k < |t| ==> !('A' <= t[k] <= 'Z')
  }

  lemma LowerWordsAreWords(ws: seq<string>)
    requires forall k :: 0 <= k < |ws| ==> IsWord(ws[k])
    ensures forall k :: 0 <= k < |LowerWords(ws)| ==> IsWord(LowerWords(ws)[k])
  {
  }

  /** Normalising keeps the words of the text, in order, lower-cased. */
  lemma NormaliseWords(raw: string)
    ensures Normalise(raw) == Join(' ', LowerWords(Split(raw)))
    ensures Split(Normalise(raw)) == LowerWords(Split(raw))
  {
    var ws := Split(raw);
    SplitSpec(raw);
    LowerJoin(' ', ws);
    LowerWordsAreWords(ws);
    SplitJoin(LowerWords(ws));
  }

  /** The normalised text has no whitespace at either end, no two whitespace
      characters in a row, no whitespace but the space, and no upper case. */
  lemma NormaliseShape(raw: string)
    ensures SingleSpaced(Normalise(raw))
    ensures IsLowerCase(Normalise(raw))
  {
    NormaliseWords(raw);
    SplitSpec(raw);
    LowerWordsAreWords(Split(raw));
    JoinSingleSpaced(LowerWords(Split(raw)));
  }

  /** Normalising a normalised text leaves it unchanged. */
  lemma NormaliseIdempotent(raw: string)
    ensures Normalise(Normalise(raw)) == Normalise(raw)
  {
    var lws := LowerWords(Split(raw));
    NormaliseWords(raw);
    NormaliseWords(Normalise(raw));
    forall k | 0 <= k < |lws| ensures LowerString(lws[k]) == lws[k] {
      assert forall m :: 0 <= m < |lws[k]| ==> Lower(lws[k][m]) == lws[k][m];
    }
    assert LowerWords(lws) == lws;
  }

  // ---------------------------------------------------------------------------
  // Segmentation

  /** Question k is the first of qs[j..], in list order, whose keyword occurs
      at or after `from`. */
  predicate FirstHit(text: string, qs: seq<Question>, j: nat, from: nat, k: nat) {
    j <= k < |qs| && Find(text, qs[k].keyword, from).Some? &&
    forall m :: j <= m < k ==> Find(text, qs[m].keyword, from).None?
  }

  /** The end of a segment whose keyword ends at `from`: where the keyword of
      the first of the questions qs[j..] found at or after `from`, taken in
      list order, begins; the end of the text when none is found. This is
      not necessarily the nearest of those keywords. */
  function SegmentEnd(text: string, qs: seq<Question>, j: nat, from: nat): (end: nat)
    requires j <= |qs|
    decreases |qs| - j
    ensures end <= |text|
    ensures from <= |text| ==> from <= end
  {
    if j == |qs| then |text|
    else match Find(text, qs[j].keyword, from)
      case Some(pos) => pos
      case None => SegmentEnd(text, qs, j + 1, from)
  }

  /** The boundary is the first later keyword found in list order, or the end
      of the text when none of them is found. */
  lemma {:induction false} SegmentEndIsFirstHit(text: string, qs: seq<Question>, j: nat, from: nat)
    requires j <= |qs|
    decreases |qs| - j
    ensures (forall k :: j <= k < |qs| ==> Find(text, qs[k].keyword, from).None?) ==> SegmentEnd(text, qs, j, from) == |text|
    ensures forall k: nat :: FirstHit(text, qs, j, from, k) ==> SegmentEnd(text, qs, j, from) == Find(text, qs[k].keyword, from).value
  {
    if j < |qs| {
      var here := Find(text, qs[j].keyword, from);
      if here.None? {
        SegmentEndIsFirstHit(text, qs, j + 1, from);
        assert SegmentEnd(text, qs, j, from) == SegmentEnd(text, qs, j + 1, from);
        forall k: nat | FirstHit(text, qs, j, from, k)
          ensures FirstHit(text, qs, j + 1, from, k)
        {
        }
      } else {
        assert SegmentEnd(text, qs, j, from) == here.value;
        forall k: nat | FirstHit(text, qs, j, from, k)
          ensures k == j
        {
        }
      }
    }
  }

  /** The segment of question i: from the first occurrence of its keyword to
      the boundary; None when the keyword does not occur. */
  function Segment(text: string, qs: seq<Question>, i: nat): Option<string>
    requires i < |qs|
  {
    match Find(text, qs[i].keyword, 0)
    case None => None
    case Some(start) => Some(text[start..SegmentEnd(text, qs, i + 1, start + |qs[i].keyword|)])
  }

  /** There is a segment exactly when the keyword occurs; it is the slice of
      the text from the keyword's first occurrence to the boundary, and it
      begins with the keyword. */
  lemma SegmentSpec(text: string, qs: seq<Question>, i: nat)
    requires i < |qs|
    ensures var seg := Segment(text, qs, i);
      && (seg.None? <==> Find(text, qs[i].keyword, 0).None?)
      && (seg.Some? ==>
        var start := Find(text, qs[i].keyword, 0).value;
        && qs[i].keyword <= seg.value
        && start + |seg.value| == SegmentEnd(text, qs, i + 1, start + |qs[i].keyword|)
        && seg.value == text[start..start + |seg.value|])
  {
    FindSpec(text, qs[i].keyword, 0);
  }

  lemma SegmentAt(text: string, qs: seq<Question>, i: nat, start: nat, end: nat)
    requires i < |qs| && Find(text, qs[i].keyword, 0) == Some(start)
    requires end == SegmentEnd(text, qs, i + 1, start + |qs[i].keyword|)
    ensures start <= end <= |text|
    ensures Segment(text, qs, i) == Some(text[start..end])
  {
  }

  // ---------------------------------------------------------------------------
  // Validity of an answer

  /** The first whitespace-delimited word of `value`, or the empty string
      when there is none. */
  function FirstWord(value: string): string {
    var words := Split(value);
    if words == [] then "" else words[0]
  }

  /** The first word is empty exactly when the value is all whitespace, and
      is a word otherwise. */
  lemma FirstWordSpec(value: string)
    ensures FirstWord(value) == "" <==> AllSpace(value)
    ensures FirstWord(value) != "" ==> IsWord(FirstWord(value))
  {
    SplitSpec(value);
  }

  /** Whether the text after a colon is an answer: its first word, once
      stripped, exists and is no placeholder. */
  predicate ValidAnswer(value: string) {
    var firstWord := FirstWord(Strip(value));
    firstWord != "" && firstWord !in InvalidValues
  }

  /** Whether a segment answers its question: it holds a colon, and the text
      after the last colon is an answer. */
  predicate Answered(segment: string) {
    if ':' !in segment then false
    else
      var parts := SplitOn(segment, ':');
      ValidAnswer(parts[|parts| - 1])
  }

  lemma AnswerByFirstWord(segment: string, firstWord: string)
    requires ':' in segment
    requires var parts := SplitOn(segment, ':'); firstWord == FirstWord(Strip(parts[|parts| - 1]))
    ensures Answered(segment) == !(firstWord == "" || firstWord in InvalidValues)
  {
  }

  /** Whether question i of qs counts as not answered in the normalised text. */
  predicate IsMissing(text: string, qs: seq<Question>, i: nat)
    requires i < |qs|
  {
    var seg := Segment(text, qs, i);
    seg.None? || !Answered(seg.value)
  }

  lemma MissingAt(text: string, qs: seq<Question>, i: nat, segment: string)
    requires i < |qs| && Segment(text, qs, i) == Some(segment)
    ensures IsMissing(text, qs, i) <==> !Answered(segment)
  {
  }

  /** The labels of the missing questions among the first n, in order. */
  function MissingUpTo(text: string, qs: seq<Question>, n: nat): seq<string>
    requires n <= |qs|
  {
    if n == 0 then []
    else MissingUpTo(text, qs, n - 1) + (if IsMissing(text, qs, n - 1) then [qs[n - 1].title] else [])
  }

  lemma MissingUpToStep(text: string, qs: seq<Question>, n: nat)
    requires n < |qs|
    ensures IsMissing(text, qs, n) ==> MissingUpTo(text, qs, n + 1) == MissingUpTo(text, qs, n) + [qs[n].title]
    ensures !IsMissing(text, qs, n) ==> MissingUpTo(text, qs, n + 1) == MissingUpTo(text, qs, n)
  {
  }

  /** The missing-label list the checker returns for a normalised text. */
  function MissingLabels(text: string, qs: seq<Question>): seq<string> {
    MissingUpTo(text, qs, |qs|)
  }

  // ---------------------------------------------------------------------------
  // The checker

  /** What check_reporter_observation returns for a field value: nothing for
      a falsy field, otherwise the missing labels of the normalised,
      flattened answer. */
  function CheckResult(field: Field): seq<string> {
    match field
    case Falsy => []
    case Present(doc) => MissingLabels(Normalise(FullText(doc.content)), Questions)
  }


  /** check_reporter_observation: a falsy field reports nothing missing;
      otherwise the flattened, normalised answer is checked against the six questions. */
  method CheckReporterObservation(field: Field) returns (missing: seq<string>)
    ensures field.Falsy? ==> missing == []
    ensures missing == CheckResult(field)
  {
    if field.Falsy? {
      return [];
    }
    var raw := ExtractFullText(field.adf);
    var text := Normalise(raw);
    missing := CheckQuestions(text, Questions);
  }

  /** The loop of check_reporter_observation over the question list: the
      labels of the unanswered questions, appended in list order. */
  method CheckQuestions(text: string, questions: seq<Question>) returns (missing: seq<string>)
    ensures missing == MissingLabels(text, questions)
  {
    missing := [];
    for i := 0 to |questions|
      invariant missing == MissingUpTo(text, questions, i)
    {
      MissingUpToStep(text, questions, i);
      var unanswered := CheckQuestion(text, questions, i);
      if unanswered {
        missing := missing + [questions[i].title];
      }
    }
  }

  /** One pass of the loop of check_reporter_observation: locate the keyword
      of question i, find the boundary with the inner loop, cut the segment
      and test it. */
  method CheckQuestion(text: string, questions: seq<Question>, i: nat) returns (unanswered: bool)
    requires i < |questions|
    ensures unanswered == IsMissing(text, questions, i)
  {
    var keyword := questions[i].keyword;
    var found := Find(text, keyword, 0);
    if found.None? {
      return true;
    }
    var start := found.value;
    var end := |text|;
    for j := i + 1 to |questions|
      invariant end == |text|
      invariant SegmentEnd(text, questions, i + 1, start + |keyword|)
             == SegmentEnd(text, questions, j, start + |keyword|)
    {
      var pos := Find(text, questions[j].keyword, start + |keyword|);
      if pos.Some? {
        end := if end < pos.value then end else pos.value;
        assert end == SegmentEnd(text, questions, j, start + |keyword|);
        break;
      }
    }
    SegmentAt(text, questions, i, start, end);
    var segment := text[start..end];
    MissingAt(text, questions, i, segment);
    var answered := CheckSegment(segment);
    unanswered := !answered;
  }

  /** The validity test of check_reporter_observation for one segment: a
      colon must occur, and the first word after the last colon must be
      present and no placeholder. */
  method CheckSegment(segment: string) returns (answered: bool)
    ensures answered == Answered(segment)
  {
    if ':' !in segment {
      return false;
    }
    var parts := SplitOn(segment, ':');
    var value := Strip(parts[|parts| - 1]);
    var words := Split(value);
    var firstWord := if words != [] then words[0] else "";
    assert firstWord == FirstWord(value);
    AnswerByFirstWord(segment, firstWord);
    answered := !(firstWord == "" || firstWord in InvalidValues);
  }

  /** check_required_fields: the same check under the name the poll loop calls. */
  method CheckRequiredFields(field: Field) returns (missing: seq<string>)
    ensures missing == CheckResult(field)
  {
    missing := CheckReporterObservation(field);
  }
}
