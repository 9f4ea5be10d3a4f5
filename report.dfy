/**
  The link between the checker and the comment: the labels the checker
  reports can always be read back out of the comment built from them, and
  the acknowledgement is posted exactly when nothing is missing.
 */
module Report {
  import opened Strings
  import opened Flatten
  import opened Observation
  import opened ObservationFacts
  import opened Comment

  /** No question label holds a line break. */
  lemma LabelOneLine(i: nat)
    requires i < |Questions|
    ensures '\n' !in Questions[i].title
  {
    var title := Questions[i].title;
    assert title == "Initial insights" || title == "VED screenshot" || title == "Health check" ||
           title == "Troubleshooting" || title == "Screenshots" || title == "Logs";
  }

  /** Every label the checker reports is one of the question labels, so it
      does not hold a line break. */
  lemma CheckResultOneLine(field: Field)
    ensures forall k :: 0 <= k < |CheckResult(field)| ==> CheckResult(field)[k] in Labels(Questions)
    ensures OneLine(CheckResult(field))
  {
    if field.Present? {
      var text := Normalise(FullText(field.adf.content));
      var m, idx := MissingLabels(text, Questions), PickedIndices(MissingFlags(text, Questions), |Questions|);
      MissingSelects(text, Questions);
      forall k | 0 <= k < |m| ensures m[k] in Labels(Questions) && '\n' !in m[k] {
        assert Labels(Questions)[idx[k]] == m[k];
        LabelOneLine(idx[k]);
      }
    }
  }

  /** The comment posted for a ticket names exactly the labels the checker
      reported, in order, and is the acknowledgement exactly when none was. */
  lemma CommentNamesResult(field: Field)
    ensures ReadBack(BuildComment(CheckResult(field))) == Some(CheckResult(field))
    ensures BuildComment(CheckResult(field)) == Acknowledgement <==> CheckResult(field) == []
  {
    CheckResultOneLine(field);
    CommentRoundTrip(CheckResult(field));
  }
}
