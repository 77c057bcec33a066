/** Stamping submitted form data before it is stored: new questions,
    answers and comments get a submission time and zeroed counters, and an
    edited comment gets its new message and a raised edit count.  The clock
    reading `now` is a parameter. */
module Stamping {
  import opened Records
  import Answers

  /** `handle_updated_comment`: the entries written back for an edited comment. */
  function HandleUpdatedComment(commentData: Fields, updatedCommentMessage: string, now: DateTime): (r: Fields)
    requires "edited_count" in commentData && commentData["edited_count"].Int?
    ensures r.Keys == {"message", "submission_time", "edited_count"}
    ensures r["message"] == Text(updatedCommentMessage)
    ensures r["submission_time"] == Timestamp(DropMicroseconds(now))
    ensures r["edited_count"] == Int(commentData["edited_count"].n + 1)
  {
    map["message" := Text(updatedCommentMessage),
        "submission_time" := Timestamp(DropMicroseconds(now)),
        "edited_count" := Int(commentData["edited_count"].n + 1)]
  }

  /** One edit of a comment: the new message and the clock reading. */
  datatype Edit = Edit(message: string, at: DateTime)

  /** A stored comment row after a series of edits, each writing the entries
      of `HandleUpdatedComment` over the row. */
  function ApplyEdits(comment: Fields, edits: seq<Edit>): (r: Fields)
    requires "edited_count" in comment && comment["edited_count"].Int?
    ensures "edited_count" in r && r["edited_count"].Int?
    decreases |edits|
  {
    if edits == [] then comment
    else ApplyEdits(comment + HandleUpdatedComment(comment, edits[0].message, edits[0].at), edits[1..])
  }

  /** Every edit raises the count by exactly one; the last edit's message is
      the one stored, and no entry is lost. */
  lemma {:induction false} EditsAreCounted(comment: Fields, edits: seq<Edit>)
    requires "edited_count" in comment && comment["edited_count"].Int?
    ensures ApplyEdits(comment, edits)["edited_count"] == Int(comment["edited_count"].n + |edits|)
    ensures edits != [] ==>
      "message" in ApplyEdits(comment, edits) &&
      ApplyEdits(comment, edits)["message"] == Text(edits[|edits| - 1].message)
    ensures comment.Keys <= ApplyEdits(comment, edits).Keys
    decreases |edits|
  {
    if edits != [] {
      var next := comment + HandleUpdatedComment(comment, edits[0].message, edits[0].at);
      EditsAreCounted(next, edits[1..]);
      if |edits| > 1 {
        assert edits[1..][|edits[1..]| - 1] == edits[|edits| - 1];
      }
    }
  }

  /** The row `amend_user_inputs_for_question` leaves behind: submission
      time set and both counters zeroed, everything else kept. */
  function AmendedQuestion(questionData: Fields, now: DateTime): (r: Fields)
    ensures r.Keys == questionData.Keys + {"submission_time", "view_number", "vote_number"}
    ensures r["submission_time"] == Timestamp(DropMicroseconds(now))
    ensures r["view_number"] == Int(0) && r["vote_number"] == Int(0)
    ensures forall k :: k in questionData && k != "submission_time" && k != "view_number" && k != "vote_number" ==>
      r[k] == questionData[k]
  {
    questionData["submission_time" := Timestamp(DropMicroseconds(now))]["view_number" := Int(0)]["vote_number" := Int(0)]
  }

  /** `amend_user_inputs_for_question`: updates the form data in place and returns it. */
  method AmendUserInputsForQuestion(questionData: Record, now: DateTime) returns (r: Record)
    modifies questionData
    ensures r == questionData
    ensures questionData.fields == AmendedQuestion(old(questionData.fields), now)
  {
    questionData.fields := questionData.fields["submission_time" := Timestamp(DropMicroseconds(now))];
    questionData.fields := questionData.fields["view_number" := Int(0)];
    questionData.fields := questionData.fields["vote_number" := Int(0)];
    r := questionData;
  }

  /** `amend_user_inputs_for_answer`: a fresh answer row built from the form. */
  function AmendUserInputsForAnswer(questionId: Value, userInputs: Fields, now: DateTime): (r: Fields)
    requires "message" in userInputs && "image" in userInputs
    ensures r.Keys == {"submission_time", "vote_number", "question_id", "new_answer", "image"}
    ensures r["submission_time"] == Timestamp(DropMicroseconds(now))
    ensures r["vote_number"] == Int(0) && r["question_id"] == questionId
    ensures r["new_answer"] == userInputs["message"] && r["image"] == userInputs["image"]
  {
    map["submission_time" := Timestamp(DropMicroseconds(now)),
        "vote_number" := Int(0),
        "question_id" := questionId,
        "new_answer" := userInputs["message"],
        "image" := userInputs["image"]]
  }

  /** Answers built for one question all fall in that question's group. */
  lemma NewAnswersGroupUnderQuestion(questionId: Value, inputs: seq<Fields>, now: DateTime)
    requires forall f :: f in inputs ==> "message" in f && "image" in f
    ensures var answers := seq(|inputs|, i requires 0 <= i < |inputs| => AmendUserInputsForAnswer(questionId, inputs[i], now));
      Answers.AllHaveQuestionId(answers) &&
      Answers.Grouped(answers) == if inputs == [] then map[] else map[questionId := answers]
  {
    var answers := seq(|inputs|, i requires 0 <= i < |inputs| => AmendUserInputsForAnswer(questionId, inputs[i], now));
    assert forall a :: a in answers ==> "question_id" in a && a["question_id"] == questionId;
    Answers.SingleQuestionGrouping(answers, questionId);
  }

  /** The row `amend_user_inputs_for_comment` leaves behind: submission time
      set, edit count zeroed, everything else kept. */
  function AmendedComment(newCommentData: Fields, now: DateTime): (r: Fields)
    ensures r.Keys == newCommentData.Keys + {"submission_time", "edited_count"}
    ensures r["submission_time"] == Timestamp(DropMicroseconds(now)) && r["edited_count"] == Int(0)
    ensures forall k :: k in newCommentData && k != "submission_time" && k != "edited_count" ==>
      r[k] == newCommentData[k]
  {
    newCommentData["submission_time" := Timestamp(DropMicroseconds(now))]["edited_count" := Int(0)]
  }

  /** `amend_user_inputs_for_comment`: updates the form data in place and returns it. */
  method AmendUserInputsForComment(newCommentData: Record, now: DateTime) returns (r: Record)
    modifies newCommentData
    ensures r == newCommentData
    ensures newCommentData.fields == AmendedComment(old(newCommentData.fields), now)
  {
    newCommentData.fields := newCommentData.fields["submission_time" := Timestamp(DropMicroseconds(now))];
    newCommentData.fields := newCommentData.fields["edited_count" := Int(0)];
    r := newCommentData;
  }

  /** A new comment's edit count is the number of edits made to it since. */
  lemma FreshCommentCountsEdits(newCommentData: Fields, now: DateTime, edits: seq<Edit>)
    ensures ApplyEdits(AmendedComment(newCommentData, now), edits)["edited_count"] == Int(|edits|)
  {
    EditsAreCounted(AmendedComment(newCommentData, now), edits);
  }
}
