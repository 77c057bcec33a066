/** Grouping answer rows by the question they belong to, and attaching each
    question's group to the question row. */
module Answers {
  import opened Records

  /** Every row carries a `question_id`; indexing a row without it fails. */
  predicate AllHaveQuestionId(answers: seq<Fields>)
  {
    forall a :: a in answers ==> "question_id" in a
  }

  /** The question ids that occur in `answers`. */
  function QuestionIds(answers: seq<Fields>): set<Value>
    requires AllHaveQuestionId(answers)
  {
    set a | a in answers :: a["question_id"]
  }

  /** The answers whose `question_id` is `q`, in input order. */
  function WithQuestionId(answers: seq<Fields>, q: Value): seq<Fields>
    requires AllHaveQuestionId(answers)
  {
    if answers == [] then []
    else
      var last := answers[|answers| - 1];
      WithQuestionId(answers[..|answers| - 1], q) + (if last["question_id"] == q then [last] else [])
  }

  /** The grouping the source builds: one entry per question id present,
      holding that question's answers in input order. */
  function Grouped(answers: seq<Fields>): map<Value, seq<Fields>>
    requires AllHaveQuestionId(answers)
  {
    map q | q in QuestionIds(answers) :: WithQuestionId(answers, q)
  }

  /** `get_answers_by_question_id`: a dictionary filled in one pass, starting
      a list for a question id when it is first seen and appending after. */
  method GetAnswersByQuestionId(answers: seq<Fields>) returns (answersByQuestionId: map<Value, seq<Fields>>)
    requires AllHaveQuestionId(answers)
    ensures answersByQuestionId.Keys == QuestionIds(answers)
    ensures forall q :: q in answersByQuestionId ==> answersByQuestionId[q] == WithQuestionId(answers, q)
    ensures answersByQuestionId == Grouped(answers)
  {
    answersByQuestionId := map[];
    for i := 0 to |answers|
      invariant answersByQuestionId == Grouped(answers[..i])
    {
      var answer := answers[i];
      var qId := answer["question_id"];
      assert answers[..i + 1] == answers[..i] + [answer];
      GroupedStep(answers[..i], answer);
      if qId in answersByQuestionId {
        answersByQuestionId := answersByQuestionId[qId := answersByQuestionId[qId] + [answer]];
      } else {
        answersByQuestionId := answersByQuestionId[qId := [answer]];
      }
    }
    assert answers[..|answers|] == answers;
  }

  /** Taking in one more answer starts a group for its question id, or
      extends that question's group, and leaves every other group alone. */
  lemma GroupedStep(init: seq<Fields>, last: Fields)
    requires AllHaveQuestionId(init) && "question_id" in last
    ensures AllHaveQuestionId(init + [last])
    ensures var q := last["question_id"];
      q in Grouped(init) ==> Grouped(init + [last]) == Grouped(init)[q := Grouped(init)[q] + [last]]
    ensures var q := last["question_id"];
      q !in Grouped(init) ==> Grouped(init + [last]) == Grouped(init)[q := [last]]
  {
    var answers, q := init + [last], last["question_id"];
    assert answers[..|answers| - 1] == init;
    assert QuestionIds(answers) == QuestionIds(init) + {q};
    var before := Grouped(init);
    var after := before[q := (if q in before then before[q] else []) + [last]];
    if q !in QuestionIds(init) {
      NotPresentMeansEmpty(init, q);
    }
    forall k | k in QuestionIds(answers) ensures Grouped(answers)[k] == after[k] {
      if k != q {
        assert k in QuestionIds(init);
      }
    }
    assert Grouped(answers) == after;
    if q !in before {
      assert [] + [last] == [last];
    }
  }

  /** A question id that does not occur has no answers. */
  lemma {:induction false} NotPresentMeansEmpty(answers: seq<Fields>, q: Value)
    requires AllHaveQuestionId(answers) && q !in QuestionIds(answers)
    ensures WithQuestionId(answers, q) == []
  {
    if answers != [] {
      var init := answers[..|answers| - 1];
      assert QuestionIds(init) <= QuestionIds(answers);
      NotPresentMeansEmpty(init, q);
    }
  }

  /** A group holds input answers only, each with the group's question id. */
  lemma {:induction false} GroupMembersBelong(answers: seq<Fields>, q: Value)
    requires AllHaveQuestionId(answers)
    ensures forall a :: a in WithQuestionId(answers, q) ==> a in answers && a["question_id"] == q
  {
    if answers != [] {
      GroupMembersBelong(answers[..|answers| - 1], q);
    }
  }

  /** Each answer occurs in the group of its own question id as often as in
      the input, and in no other group. */
  lemma {:induction false} GroupMultiplicity(answers: seq<Fields>, q: Value, a: Fields)
    requires AllHaveQuestionId(answers) && "question_id" in a
    ensures multiset(WithQuestionId(answers, q))[a] == if a["question_id"] == q then multiset(answers)[a] else 0
  {
    if answers != [] {
      var init := answers[..|answers| - 1];
      assert answers == init + [answers[|answers| - 1]];
      GroupMultiplicity(init, q, a);
    }
  }

  /** Answers that all belong to question `q` form its whole group. */
  lemma {:induction false} SingleQuestionGroup(answers: seq<Fields>, q: Value)
    requires AllHaveQuestionId(answers)
    requires forall a :: a in answers ==> a["question_id"] == q
    ensures WithQuestionId(answers, q) == answers
  {
    if answers != [] {
      var init := answers[..|answers| - 1];
      assert answers == init + [answers[|answers| - 1]];
      SingleQuestionGroup(init, q);
    }
  }

  /** ... and the grouping has that one group only. */
  lemma SingleQuestionGrouping(answers: seq<Fields>, q: Value)
    requires AllHaveQuestionId(answers)
    requires forall a :: a in answers ==> a["question_id"] == q
    ensures Grouped(answers) == if answers == [] then map[] else map[q := answers]
  {
    SingleQuestionGroup(answers, q);
    if answers != [] {
      assert answers[0] in answers;
      assert QuestionIds(answers) == {q};
    }
  }

  /** Grouping distributes over concatenation, so answers earlier in the
      input come earlier in their group. */
  lemma {:induction false} GroupKeepsOrder(first: seq<Fields>, second: seq<Fields>, q: Value)
    requires AllHaveQuestionId(first) && AllHaveQuestionId(second)
    ensures AllHaveQuestionId(first + second)
    ensures WithQuestionId(first + second, q) == WithQuestionId(first, q) + WithQuestionId(second, q)
  {
    if second == [] {
      assert first + second == first;
    } else {
      var init := second[..|second| - 1];
      assert (first + second)[..|first + second| - 1] == first + init;
      GroupKeepsOrder(first, init, q);
    }
  }

  /** Some element of a non-empty set. */
  ghost function Pick(keys: set<Value>): (q: Value)
    requires keys != {}
    ensures q in keys
  {
    var q :| q in keys; q
  }

  /** Sum of the group sizes of a grouping. */
  ghost function SizeSum(groups: map<Value, seq<Fields>>): nat
    decreases |groups|
  {
    if |groups| == 0 then 0
    else
      var q := Pick(groups.Keys);
      assert |groups - {q}| < |groups| by { assert (groups - {q}).Keys == groups.Keys - {q}; }
      |groups[q]| + SizeSum(groups - {q})
  }

  /** The sum does not depend on which key is taken out first. */
  lemma SizeSumWithout(groups: map<Value, seq<Fields>>, q: Value)
    requires q in groups
    ensures SizeSum(groups) == |groups[q]| + SizeSum(groups - {q})
    decreases |groups|
  {
    var p := Pick(groups.Keys);
    if p != q {
      assert (groups - {p}).Keys == groups.Keys - {p};
      assert (groups - {q}).Keys == groups.Keys - {q};
      SizeSumWithout(groups - {p}, q);
      SizeSumWithout(groups - {q}, p);
      assert groups - {p} - {q} == groups - {q} - {p};
    }
  }

  /** Appending one answer to one group raises the sum by one. */
  lemma SizeSumAppend(groups: map<Value, seq<Fields>>, q: Value, a: Fields)
    ensures SizeSum(groups[q := (if q in groups then groups[q] else []) + [a]]) == SizeSum(groups) + 1
  {
    var updated := groups[q := (if q in groups then groups[q] else []) + [a]];
    SizeSumWithout(updated, q);
    assert updated - {q} == groups - {q};
    if q in groups {
      SizeSumWithout(groups, q);
    } else {
      assert groups - {q} == groups;
    }
  }

  /** The groups together hold exactly as many answers as the input. */
  lemma {:induction false} GroupSizesAddUp(answers: seq<Fields>)
    requires AllHaveQuestionId(answers)
    ensures SizeSum(Grouped(answers)) == |answers|
  {
    if answers == [] {
      assert Grouped(answers) == map[];
    } else {
      var init, last := answers[..|answers| - 1], answers[|answers| - 1];
      var before, q := Grouped(init), last["question_id"];
      assert answers == init + [last];
      GroupedStep(init, last);
      GroupSizesAddUp(init);
      SizeSumAppend(before, q, last);
      if q in before {
        assert Grouped(answers) == before[q := before[q] + [last]];
      } else {
        assert [] + [last] == [last];
        assert Grouped(answers) == before[q := [last]];
      }
    }
  }

  /** The question row with its `answers` entry set from the grouping. */
  function WithAnswers(question: Fields, answersByQuestionId: map<Value, seq<Fields>>): (r: Fields)
    requires "id" in question
    ensures r.Keys == question.Keys + {"answers"}
    ensures forall k :: k in question && k != "answers" ==> r[k] == question[k]
    ensures question["id"] in answersByQuestionId ==> r["answers"] == Rows(answersByQuestionId[question["id"]])
    ensures question["id"] !in answersByQuestionId ==> r["answers"] == Rows([])
  {
    var qId := question["id"];
    question["answers" := Rows(if qId in answersByQuestionId then answersByQuestionId[qId] else [])]
  }

  /** Attached to the grouping of `answers`, a question gets exactly the
      answers whose `question_id` is its `id`, in input order. */
  lemma AttachedAnswersBelongToQuestion(question: Fields, answers: seq<Fields>)
    requires "id" in question && AllHaveQuestionId(answers)
    ensures WithAnswers(question, Grouped(answers))["answers"] == Rows(WithQuestionId(answers, question["id"]))
  {
    if question["id"] !in QuestionIds(answers) {
      NotPresentMeansEmpty(answers, question["id"]);
    }
  }

  /** `merge_answers_by_question_id_into_questions`: each question row is
      updated in place and the same list is returned. */
  method MergeAnswersByQuestionIdIntoQuestions(answersByQuestionId: map<Value, seq<Fields>>, questions: seq<Record>)
    returns (merged: seq<Record>)
    requires forall question :: question in questions ==> "id" in question.fields
    modifies questions
    ensures merged == questions
    ensures forall question :: question in questions ==>
      question.fields == WithAnswers(old(question.fields), answersByQuestionId)
  {
    for i := 0 to |questions|
      invariant forall question :: question in questions[..i] ==>
        question.fields == WithAnswers(old(question.fields), answersByQuestionId)
      invariant forall question :: question in questions && question !in questions[..i] ==>
        question.fields == old(question.fields)
    {
      var question := questions[i];
      var qId := question.fields["id"];
      if qId in answersByQuestionId {
        question.fields := question.fields["answers" := Rows(answersByQuestionId[qId])];
      } else {
        question.fields := question.fields["answers" := Rows([])];
      }
      assert questions[..i + 1] == questions[..i] + [question];
    }
    assert questions[..|questions|] == questions;
    merged := questions;
  }
}
