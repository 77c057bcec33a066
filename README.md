# Request-layer helpers of the ask-mate Q&A forum

The forum's request handlers share a few helpers in `util.py`. This project models them in Dafny and proves what they do.

- **Search highlighting.** `split_text_at_substring_occurrences` cuts a text into alternating pieces: text that does not match, then a case-insensitive occurrence of the search phrase. It finds occurrences with a window of the phrase's length that slides one character at a time.
- **Answer grouping.** `get_answers_by_question_id` groups answer rows by `question_id`. `merge_answers_by_question_id_into_questions` writes each question's group into its `answers` entry.
- **Tag check.** `not_duplicate_tag` checks whether a tag name is already taken.
- **Record stamping.** Four helpers prepare submitted form data for storage:
  - `handle_updated_comment`
  - `amend_user_inputs_for_question`
  - `amend_user_inputs_for_answer`
  - `amend_user_inputs_for_comment`

Rows are Python dictionaries. In the model a row is a `Fields` value, a `map<string, Value>`. A `Value` is one of:

- SQL NULL
- an integer
- text
- a timestamp
- a list of rows

When a helper updates a dictionary in place, that dictionary is a `Record` object and the helper reassigns its `fields`. This applies to the question rows in the merge and to the form data amended for a question or a comment.

Modules:

- `Records` (records.dfy): values, rows and timestamps.
- `TextSplit` (text_split.dfy): the splitter.
- `Answers` (answers.dfy): grouping and merging.
- `Tags` (tags.dfy): the duplicate-tag check.
- `Stamping` (stamping.dfy): the four stamping helpers.

## The splitter

`SplitTextAtSubstringOccurrences` is the source's loop. It keeps the same sliding `charSeq` window and split point, and the same `continue` while the window is not yet full. Its window is always `Window(substr, text, i)`: one `Push` per character read, which is proved to be the last `|substr|` characters. The method is proved equal to `Split`, which is the fold of one loop step (`StepAt`) over the text.

Several properties are then proved about `Split`:

- The number of pieces is `2k`, or `2k + 1` when the unmatched tail is appended, where `k` is the number of matching windows.
- Every odd-indexed piece has the phrase's length and equals the phrase ignoring case.
- A text shorter than the phrase gives no pieces.
- The result is `[text]` exactly when the text is non-empty, at least as long as the phrase, and no window matches.
- No tail follows a match on the last window.
- When the text is at least as long as the phrase and no two matches overlap, the pieces concatenate back to the text.

The model follows the code in two places where a reader might expect otherwise:

- **Overlapping matches are both reported.** This is because the window is never reset after a match. Splitting `"aaa"` at `"aa"` gives `["", "aa", "", "aa"]`, whose concatenation is longer than the text.
- **A text shorter than the phrase gives `[]`, not `[text]`.** This is because the tail is only appended when the window on the last character is full.

The code is well defined for an empty phrase, so the model does not exclude it. With an empty phrase every window matches. The concatenation property still holds in that case.

## Model

| member | source | states |
|---|---|---|
| `Records.DropMicroseconds` | util.py:8 | `replace(microsecond=0)` keeps the second and zeroes the microseconds |
| `TextSplit.LowerChar` | util.py:28 | ASCII `A` to `Z` become `a` to `z` (code point plus 32); every other character is unchanged |
| `TextSplit.Lower` | util.py:28 | lower-casing keeps the length |
| `TextSplit.LowerEqualIffEqualIgnoringCase` | util.py:28 | two strings are equal after lower-casing if and only if they have the same length and agree character by character after ASCII lower-casing |
| `TextSplit.Slice` | util.py:30 | Python slicing `s[lo:hi]` inside the string: `s[lo..hi]` when `lo <= hi`, otherwise empty |
| `TextSplit.WindowMatches` | util.py:21-28 | the window ending at `i` is full (`len(substr) <= i + 1`) and equals the phrase ignoring case |
| `TextSplit.StepAt` | util.py:19-34 | one iteration at index `i`: on a match, the gap since the split point and the window are appended and the split point moves to `i + 1`; on a miss at the last character with a full window, `text[current_split_point:]` is appended; otherwise nothing changes; the split point never passes `i + 1` |
| `TextSplit.Scan` | util.py:14-34 | the pieces and split point after the first `n` characters: `([], 0)` folded through `StepAt`; the split point never passes `n` |
| `TextSplit.Split` | util.py:13-36 | the list returned: the fold of `StepAt` over the whole text |
| `TextSplit.Push` | util.py:19-25 | `char_seq.append(char)`, then `del char_seq[0]` once the window is longer than the phrase |
| `TextSplit.Window` | util.py:14-25 | `char_seq` after the first `n` characters: one `Push` per character read, starting from `[]` |
| `TextSplit.SplitTextAtSubstringOccurrences` | util.py:13-36 | the sliding-window loop returns exactly `Split(substr, text)` |
| `TextSplit.WindowIsSuffix` | util.py:19-25 | after `n` characters the window holds the last `len(substr)` characters read, or all of them while fewer have been read |
| `TextSplit.WindowTest` | util.py:27-28 | comparing the full window with the phrase after lower-casing is testing whether the window ending at `i` matches |
| `TextSplit.ScanStepBeforeFull` | util.py:21-22 | a character read while the window is shorter than the phrase changes neither the pieces nor the split point |
| `TextSplit.ScanStepOnMatch` | util.py:28-32 | on a matching window, the loop's two appends and its new split point `i + 1` are the next scan state |
| `TextSplit.ScanStepOnTail` | util.py:33-34 | on a miss at the last character, appending `text[current_split_point:]` gives the next scan state |
| `TextSplit.ScanStepOnMiss` | util.py:28-34 | a miss before the last character changes neither the pieces nor the split point |
| `TextSplit.ScanLength` | util.py:18-34 | after any prefix, two pieces per match so far, plus one for the tail once the last character is reached |
| `TextSplit.SplitLength` | util.py:27-34 | the result has `2 * MatchCount` pieces, plus one exactly when the tail is appended |
| `TextSplit.ScanOddPieces` | util.py:27-32 | after any prefix, every odd-indexed piece has the phrase's length and equals it ignoring case |
| `TextSplit.OddPiecesMatch` | util.py:27-32 | every odd-indexed piece of the result has the phrase's length and equals it ignoring case |
| `TextSplit.ShortScanIsEmpty` | util.py:21-22 | while the window never fills, nothing is emitted and the split point stays 0 |
| `TextSplit.ShortTextGivesNothing` | util.py:18-22 | a text shorter than the phrase, the empty text included, gives `[]` |
| `TextSplit.NoMatchCountZero` | util.py:28 | no match has been counted if and only if no window so far matches |
| `TextSplit.UnmatchedScanIsEmpty` | util.py:28-34 | before the last character, a scan without matches has emitted nothing |
| `TextSplit.WholeTextWhenNoMatch` | util.py:33-34 | the result is `[text]` if and only if the text is non-empty, at least as long as the phrase, and has no matching window |
| `TextSplit.FinalMatchEndsWithWindow` | util.py:28-34 | if the last window matches, no tail is appended: the count is even and the last piece is that window |
| `TextSplit.OddLengthIffTail` | util.py:33-34 | the piece count is odd if and only if the tail is appended |
| `TextSplit.CutFollowsMatch` | util.py:29-31 | the split point is 0 or lies just past a matching window |
| `TextSplit.MatchStepConcat` | util.py:29-32 | a non-overlapping match extends the spelled prefix to the end of the window |
| `TextSplit.TailStepConcat` | util.py:33-34 | the tail completes the spelled prefix to the whole text |
| `TextSplit.ScanConcat` | util.py:18-34 | without overlaps, the pieces so far spell the text up to the split point, or all of it once the tail is appended |
| `TextSplit.ConcatRestoresText` | util.py:18-36 | a text at least as long as the phrase, with no overlapping matches, is the concatenation of its pieces |
| `TextSplit.OverlappingMatchesBothEmitted` | util.py:24-32 | `"aa"` in `"aaa"` gives `["", "aa", "", "aa"]`: both overlapping matches, with an empty gap between them |
| `Answers.GetAnswersByQuestionId` | util.py:39-47 | keys are exactly the question ids present; each group is the answers with that id, in input order |
| `Answers.GroupedStep` | util.py:41-46 | taking in one more answer starts a one-answer group for a new question id, or appends the answer to its question's group, and leaves every other group unchanged |
| `Answers.NotPresentMeansEmpty` | util.py:43-46 | a question id that occurs in no answer has an empty group |
| `Answers.GroupMembersBelong` | util.py:41-46 | a group holds only input answers, each carrying the group's question id |
| `Answers.GroupMultiplicity` | util.py:41-46 | an answer occurs in its own question's group as often as in the input, and in no other group |
| `Answers.SingleQuestionGrouping` | util.py:39-47 | answers that all share one question id give a dictionary with that single key, or an empty one when there are no answers |
| `Answers.GroupKeepsOrder` | util.py:41-46 | grouping distributes over concatenation, so earlier answers come first in their group |
| `Answers.SingleQuestionGroup` | util.py:39-47 | answers that all share one question id form one group holding all of them |
| `Answers.GroupSizesAddUp` | util.py:39-47 | the group sizes add up to the number of input answers |
| `Answers.WithAnswers` | util.py:52-56 | the question's `answers` entry becomes its group, or `[]` when its id is not a key; no other entry changes |
| `Answers.AttachedAnswersBelongToQuestion` | util.py:50-57 | attached to the grouping of a list of answers, a question gets exactly the answers whose `question_id` is its `id` |
| `Answers.MergeAnswersByQuestionIdIntoQuestions` | util.py:50-57 | returns the same list; every question row in it, repeated ones included, gets its group attached and nothing else changes |
| `Tags.NotDuplicateTag` | util.py:60-65 | true if and only if every existing tag has a `name` and none is exactly the given text, compared case-sensitively; only the tags up to the first match need a `name` |
| `Stamping.HandleUpdatedComment` | util.py:6-10 | exactly three entries: the new message, the truncated clock, and the old `edited_count` plus one |
| `Stamping.EditsAreCounted` | util.py:6-10 | after `n` edits written over the row, `edited_count` has grown by `n`, the last message is stored, and no entry is lost |
| `Stamping.AmendedQuestion` | util.py:68-72 | the truncated clock is stored as `submission_time`, `view_number` and `vote_number` are 0, and every other key is kept unchanged |
| `Stamping.AmendUserInputsForQuestion` | util.py:68-72 | amends the form data in place, to `AmendedQuestion` of the old entries, and returns the same object |
| `Stamping.AmendUserInputsForAnswer` | util.py:75-83 | exactly five entries: the truncated clock, vote 0, the given question id, and `new_answer` and `image` copied from the form's `message` and `image` |
| `Stamping.NewAnswersGroupUnderQuestion` | util.py:75-83 | answers built for one question all fall in that question's single group |
| `Stamping.AmendedComment` | util.py:86-89 | the truncated clock is stored as `submission_time`, `edited_count` is 0, and every other key is kept unchanged |
| `Stamping.AmendUserInputsForComment` | util.py:86-89 | amends the form data in place, to `AmendedComment` of the old entries, and returns the same object |
| `Stamping.FreshCommentCountsEdits` | util.py:86-89 | a newly stamped comment's `edited_count` equals the number of edits made to it since |

## Left out

- server.py is not part of this model. It holds the Flask routes, template rendering, redirects and the calls into `data_manager`, which is HTTP plumbing and code not shown here.
- The clock: `datetime.now()` is replaced by a parameter `now`. Only the truncation to whole seconds is modelled.
- The tag query: `select.existing_tags_for_question(-1)` is a database read. `NotDuplicateTag` takes the tag rows it would return as a parameter.
- Lower-casing is ASCII only. Python's Unicode `str.lower()` differs for non-ASCII characters, including the few whose lower case is longer than one character.
- A missing dictionary key raises `KeyError` in the source. These keys are therefore preconditions: `question_id` of every answer, `id` of every question, `name` of every tag the scan reaches (each tag up to and including the first match), `edited_count` of the comment, and `message` and `image` of the answer form.
- `edited_count` must be an integer. The source would raise a `TypeError` for any other value.
- `Answers.GetAnswersByQuestionId`: a `map` has no order, so the insertion order of the dictionary's keys (one key per question, in the order each id is first seen) is not modelled. The order within each group is modelled.
- Python dictionaries keep their keys in insertion order; a `map` does not. This affects every row modelled as `Fields`: the grouping dictionary and the rows built or amended by the stamping helpers. Nothing in `util.py` iterates over those rows, so no result depends on that order.
- Answer rows are values, not objects. Nothing in these helpers changes an answer after it is grouped, so sharing between the input list, the groups and the questions' `answers` entries is not modelled.
- `Stamping.EditsAreCounted` assumes that the caller writes the three entries of `handle_updated_comment` over the stored row. That write happens in `data_manager`, which is not part of this model.
- Python's dynamic typing, such as `True == 1` for dictionary keys, is not modelled. Values of different constructors are always distinct.
