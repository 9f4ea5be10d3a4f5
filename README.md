# Reporter-answer completeness check, modelled in Dafny

This project models the core of a support-ticket bot, `processor.py`. The core reads the reporter's free-text answer field from a ticket. The field is an Atlassian Document Format (ADF) tree.

The core does three things:

- **Flattening.** `extract_full_text` flattens the tree to a string.
- **Checking.** `check_reporter_observation` (called through `check_required_fields`) normalises that string. It collapses whitespace runs into one space and lower-cases. It then looks for each of six fixed questions, in declared order:
  - it finds the question's keyword;
  - it cuts a segment from the keyword up to the first *later-listed* keyword found after it, or up to the end of the text;
  - it accepts the answer when the segment holds a colon, and the first word after the segment's last colon exists and is not one of the placeholders `n/a`, `none`, `-` or `nil`.

  The labels of the questions not accepted are returned, in declared order.
- **Commenting.** `build_comment` turns that list into the comment posted on the ticket. An empty list gives a fixed acknowledgement. Otherwise the comment is a fixed request template holding one `- label` line per missing label.

The modules:

- `Strings` (`strings.dfy`) models the Python `str` operations the code uses: `isspace`, `lower`, `split()`, `split(sep)`, `join`, `strip` and `find`. `find` returns an `Option` where Python returns `-1`.
- `Flatten` (`flatten.dfy`) holds:
  - the ADF tree as datatypes;
  - the specification function `FullText`;
  - `extract_full_text` as a method with the source's two nested loops, proved equal to `FullText`.
- `Observation` (`observation.dfy`) holds the specification (normalisation, segmentation and the answer test) and the checking methods.
  - `CheckReporterObservation` calls `CheckQuestions`. That is the outer loop, which appends to `missing`.
  - `CheckQuestions` calls `CheckQuestion` once per pass. `CheckQuestion` is the body of the outer loop, with the inner boundary loop and its `break`.
  - `CheckSegment` is the colon and first-word test.
  - Each of these methods is proved against the specification functions.
- `ObservationFacts` (`observation_facts.dfy`) holds what the specification implies:
  - the result is an ordered selection of the labels, without repeats;
  - a label is reported exactly when its question is unanswered;
  - a question whose keyword is absent is reported;
  - a blank document reports all six;
  - a present keyword's label is reported exactly when the segment holds no colon, or when the first word after the last colon is empty or a placeholder.
- `Comment` (`comment.dfy`) holds `build_comment`, its inverse `ReadBack`, and the round trip between them.
- `Report` (`report.dfy`) connects the two: the comment built from the checker's result names exactly the labels the checker reported.
- `Scenarios` (`scenarios.dfy`) proves what the specification gives for two concrete texts:
  - the worked example, where the reporter answered two questions;
  - a text where a placeholder answer is accepted because the boundary follows list order.

Three behaviours of the code are easy to miss:

- **A falsy field reports nothing.** When `customfield_10106` is falsy (absent, `None`, an empty object), the code returns `[]`, so nothing is reported missing (processor.py:18-19). A present but blank document reports every label (`BlankDocumentAllMissing`); so does any present text that answers no question, such as one without a colon (`NoColonAllMissing`).
- **A placeholder answer is not always reported.** Answering a question with `keyword: n/a` does not always report its label. The segment boundary is only a keyword listed *after* the question, so an earlier-listed keyword appearing later in the text does not end the segment. `Scenarios.ListOrderLeak` proves a text where the VED question is answered `n/a` and still counts as answered. This list-order rule is the code's behaviour, and the model keeps it.
- **The boundary is the first hit in list order.** The inner loop's `min(end, pos)` is always `pos`: `end` is still the text length when the loop breaks on its first hit. The model states the boundary as the first later keyword found in list order (`SegmentEndIsFirstHit`). The method keeps the `min` and discharges it with its loop invariant.

## Model

| member | source | states |
|---|---|---|
| Flatten.ExtractFullText | processor.py:3-11 | the nested loops return exactly the flattened text `FullText` of the document's blocks |
| Flatten.FullTextAppend | processor.py:5-10 | flattening a list of blocks is flattening its parts one after the other, in order |
| Flatten.ParagraphTextAppend | processor.py:7-9 | a paragraph's text is the concatenation of its inline nodes' texts, in order |
| Flatten.OnlyParagraphsCount | processor.py:5-6 | blocks other than paragraphs add nothing: the text equals that of the paragraph blocks alone |
| Flatten.OnlyTextNodesCount | processor.py:7-8 | inline nodes other than text nodes add nothing to a paragraph's text |
| Flatten.NoParagraphsNoText | processor.py:3-11 | a document with no paragraph block flattens to the empty string |
| Flatten.BlankIsSpaces | processor.py:6-10 | a document whose text nodes are all empty flattens to one space per paragraph and nothing else |
| Flatten.Paragraphs | processor.py:6 | the selected blocks are all paragraphs |
| Flatten.TextNodes | processor.py:8 | the selected inline nodes are all text nodes |
| Strings.Lower | processor.py:21 | lower-casing sends each upper-case letter A-Z to its own lower-case letter, keeps whitespace as whitespace and changes nothing else |
| Strings.LeadingWordSpec | processor.py:58 | the leading word is the longest whitespace-free prefix |
| Strings.SplitSpec | processor.py:21 | every piece `split()` returns is a non-empty whitespace-free word; there is none exactly when the string is all whitespace |
| Strings.SplitJoin | processor.py:21 | splitting words joined by single spaces gives the words back |
| Strings.LowerJoin | processor.py:21 | lower-casing a joined list is joining the lower-cased words |
| Strings.JoinSingleSpaced | processor.py:21 | words joined by one space have no whitespace at either end and never two whitespace characters in a row |
| Strings.StripSpec | processor.py:56 | `strip()` returns a slice of the input with only whitespace cut from either end and no whitespace left at either end |
| Strings.SplitOn | processor.py:56 | `split(":")` always returns at least one piece, so `[-1]` is defined |
| Strings.SplitOnLast | processor.py:56 | the last piece of `split(":")` holds no colon and is the text after the last colon, or the whole string when there is none |
| Strings.SplitOnJoin | processor.py:73 | splitting on a separator that no part holds undoes joining on it |
| Strings.JoinAppend | processor.py:73 | joining two non-empty lists puts one separator between their joins |
| Strings.FindSpec | processor.py:37 | `find` returns the first occurrence at or after the start position, and reports none only when there is none |
| Strings.FindSkip | processor.py:45 | `find` passes over text lacking the substring's first character |
| Strings.MissingCharNotFound | processor.py:37 | `find` fails for a substring holding a character the text lacks |
| Strings.DoubledCharNotFound | processor.py:37 | `find` fails for a substring with a doubled character that occurs only once in the text |
| Observation.NormaliseWords | processor.py:21 | normalising keeps the text's words in order, lower-cased, single-spaced |
| Observation.NormaliseShape | processor.py:21 | the normalised text has no whitespace at either end, no two whitespace characters in a row, and no upper case |
| Observation.NormaliseIdempotent | processor.py:21 | normalising a normalised text changes nothing |
| Observation.SegmentEnd | processor.py:43-48 | the boundary lies within the text and not before the end of the keyword |
| Observation.SegmentEndIsFirstHit | processor.py:43-48 | the boundary is where the first later-listed keyword found at or after the end of the keyword begins, taken in list order, or the text's end when none is found |
| Observation.SegmentSpec | processor.py:37-50 | a segment exists exactly when the keyword occurs; it starts at the keyword's first occurrence, begins with the keyword and ends at the boundary |
| Observation.SegmentAt | processor.py:37-50 | given the keyword's first position and the boundary, the segment is that slice of the text and the two positions are ordered within the text |
| Observation.FirstWordSpec | processor.py:58 | the first word is empty exactly when the value is all whitespace, and is a word otherwise |
| Observation.CheckReporterObservation | processor.py:14-62 | a falsy field returns the empty list; otherwise the result is the missing labels of the flattened, normalised answer |
| Observation.CheckQuestions | processor.py:36-62 | the outer loop returns exactly the labels of the unanswered questions, in list order |
| Observation.CheckQuestion | processor.py:37-60 | one pass, with the inner boundary loop and its `break`, decides exactly whether the question is unanswered |
| Observation.CheckSegment | processor.py:52-60 | the colon and first-word test decides exactly whether the segment is answered |
| Observation.CheckRequiredFields | processor.py:65-66 | returns what the checker returns for the field |
| ObservationFacts.MissingSelects | processor.py:36-62 | the result is the labels at a strictly increasing list of question positions, and exactly the unanswered positions are listed |
| ObservationFacts.MissingBounded | processor.py:36-62 | at most one label per question is reported |
| ObservationFacts.MissingNoDuplicates | processor.py:24-62 | with distinct labels, no label is reported twice |
| ObservationFacts.MissingExactly | processor.py:36-62 | an unanswered question's label is reported, and with distinct labels a reported label belongs to an unanswered question |
| ObservationFacts.QuestionsDistinct | processor.py:24-31 | the six fixed labels are distinct |
| ObservationFacts.AllMissing | processor.py:36-62 | when every question is unanswered, every label is reported, in order |
| ObservationFacts.AbsentKeywordMissing | processor.py:37-41 | a question whose keyword occurs nowhere in the text is reported |
| ObservationFacts.NoColonAllMissing | processor.py:52-54 | a text without a colon reports every label |
| ObservationFacts.BlankNormalisesEmpty | processor.py:21 | a present document without text normalises to the empty string |
| ObservationFacts.EmptyTextAllMissing | processor.py:37-41 | against the empty text all six labels are reported, in order |
| ObservationFacts.BlankDocumentAllMissing | processor.py:14-41 | a present document without text, including one with no paragraphs, reports all six labels in declared order |
| ObservationFacts.FirstWordStrip | processor.py:56-58 | stripping before splitting does not change the first word |
| ObservationFacts.FirstWordSpaceSuffix | processor.py:58 | trailing whitespace does not change the first word |
| ObservationFacts.LastPiece | processor.py:56 | the piece after the last colon is the text following that colon |
| ObservationFacts.LastColonExists | processor.py:52-56 | a segment holding a colon has exactly one last colon |
| ObservationFacts.AnsweredAfterLastColon | processor.py:52-60 | a segment is answered exactly when the first word after its last colon exists and is no placeholder |
| ObservationFacts.UnansweredExactly | processor.py:52-60 | a segment is unanswered exactly when it has no colon, or the first word after its last colon is empty or a placeholder |
| ObservationFacts.PresentKeywordMissing | processor.py:33-60 | a question whose keyword is present counts as missing exactly when its segment has no colon, or the first word after the segment's last colon is empty or one of `n/a`, `none`, `-`, `nil` |
| ObservationFacts.PresentKeywordReported | processor.py:24-62 | for the six questions, a present keyword's label is in the returned list exactly when its segment has no colon, or the first word after the segment's last colon is empty or a placeholder |
| Comment.Bullets | processor.py:73 | one `- label` line per missing label, in order |
| Comment.BuildComment | processor.py:69-78 | the acknowledgement exactly when nothing is missing; otherwise the text opens with the request header and closes with the fixed footer |
| Comment.CommentLines | processor.py:73-78 | a request comment's lines are the header's lines, one bullet line per missing label in order, and the footer's lines |
| Comment.ReadBack | processor.py:69-78 | reading the acknowledgement back gives the empty list |
| Comment.CommentRoundTrip | processor.py:69-78 | every list of one-line labels is recovered from its comment |
| Comment.CommentInjective | processor.py:69-78 | different one-line label lists give different comments |
| Report.LabelOneLine | processor.py:24-31 | no question label holds a line break |
| Report.CheckResultOneLine | processor.py:24-62 | every reported label is one of the six question labels, and none holds a line break |
| Report.CommentNamesResult | processor.py:69-78 | the comment built from the checker's result reads back as exactly that result, and is the acknowledgement exactly when the result is empty |
| Scenarios.ExampleMissing | processor.py:24-62 | "mention any initial insights: good mention the troubleshooting steps: done" reports VED screenshot, Health check, Screenshots and Logs |
| Scenarios.ExampleAnswers | processor.py:36-62 | in that text only the first and the fourth question are answered |
| Scenarios.ExampleFirstSegment | processor.py:43-50 | in that text the first segment ends where the fourth keyword begins |
| Scenarios.ExampleFourthSegment | processor.py:43-50 | in that text the fourth segment runs to the end of the text |
| Scenarios.LeakSegment | processor.py:43-50 | in "check internal ved: n/a mention any initial insights: yes" the VED segment is the whole text, because the later first keyword is listed earlier |
| Scenarios.ListOrderLeak | processor.py:43-60 | in that text the VED question counts as answered, and its label is not reported, although its own answer is `n/a` |

## Left out

- `jira_client.py`, `notifier.py` and `main.py` are not part of this model. They are the network calls, the message relay and the poll loop around the core. The model has no I/O, and the transition that `main.py` chooses from the result is not modelled.
- Unicode: `isspace` and `lower` are modelled on ASCII only. Python's full Unicode case mapping and whitespace classes are not.
- The ticket record: the model starts from the value of `customfield_10106` (`Field`). Every falsy value is one case, `Falsy`. A truthy value that is not an ADF object is outside the model.
- Missing ADF keys: a missing `"content"` is modelled as an empty list, and a text node without `"text"` as the empty string. Both are the lookup defaults the source uses.
- `build_comment`'s `issue` parameter is unused by the source and is dropped.
- Comment.BuildComment: its own contract gives only the shape of a request comment, its header and footer. Its full text is stated by `Comment.CommentLines` and `Comment.CommentRoundTrip`.
- Comment.ReadBack: its own contract covers only the acknowledgement. `Comment.CommentRoundTrip` states what it returns for a request comment.
