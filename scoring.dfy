/** Scoring a quiz submission (the POST branch of quiz() in app.py): one
    point for every stored question whose answer field, named str(id),
    holds exactly its correct option. */
module Scoring {
  import opened QuizData
  import Decimal

  /** The form field the quiz page gives to the question with this id. */
  function AnswerKey(id: int): string {
    Decimal.IntToString(id)
  }

  /** The answer field of a one-digit id is that digit. */
  lemma OneDigitKey(id: int)
    requires 0 <= id < 10
    ensures AnswerKey(id) == [(('0' as int) + id) as char]
  {
  }

  /** The submission earns the point of question q, stored under id. A
      missing field is None in the source, which equals no option. */
  function EarnsPoint(form: Form, id: int, q: Question): (earns: bool)
    ensures earns <==> AnswerKey(id) in form && form[AnswerKey(id)] == q.correctOption
  {
    Get(form, AnswerKey(id)) == Some(q.correctOption)
  }

  /** The ids of the questions the submission answers correctly. */
  function CorrectIds(questions: map<int, Question>, form: Form): (ids: set<int>)
    ensures ids <= questions.Keys
  {
    set id | id in questions && EarnsPoint(form, id, questions[id])
  }

  /** The score a submission earns against a question table. It never
      exceeds the number of questions stored when the quiz is submitted. */
  function Score(questions: map<int, Question>, form: Form): (s: nat)
    ensures s <= |questions|
  {
    SubsetCardinality(CorrectIds(questions, form), questions.Keys);
    |CorrectIds(questions, form)|
  }

  /** The loop of the quiz handler: it visits every stored question once, in
      whatever order the table yields them, and counts the matches. */
  method ScoreSubmission(questions: map<int, Question>, form: Form) returns (score: nat)
    ensures score == Score(questions, form)
  {
    ghost var correct := CorrectIds(questions, form);
    score := 0;
    var pending := questions.Keys;
    while pending != {}
      invariant pending <= questions.Keys
      invariant score == |correct - pending|
      decreases pending
    {
      NonEmptyHasElement(pending);
      var id :| id in pending;
      CorrectIdsMember(questions, form, id);
      VisitOne(correct, pending, id);
      if Get(form, AnswerKey(id)) == Some(questions[id].correctOption) {
        score := score + 1;
      }
      pending := pending - {id};
    }
    assert correct - pending == correct;
  }

  /** Proof helper, not a property of the application: visiting one more id
      of a set grows the visited part of it by that id exactly when the id
      is in it. */
  lemma VisitOne(correct: set<int>, pending: set<int>, id: int)
    requires id in pending
    ensures |correct - (pending - {id})| == |correct - pending| + (if id in correct then 1 else 0)
  {
    if id in correct {
      assert correct - (pending - {id}) == (correct - pending) + {id};
    } else {
      assert correct - (pending - {id}) == correct - pending;
    }
  }

  /** The same count taken along a list of ids, as the source takes it along
      the list Question.query.all() returns; ids not in the table add nothing. */
  function ScoreAlong(questions: map<int, Question>, form: Form, ids: seq<int>): (s: nat)
    ensures s <= |ids|
  {
    if ids == [] then 0
    else
      (if ids[0] in questions && EarnsPoint(form, ids[0], questions[ids[0]]) then 1 else 0)
      + ScoreAlong(questions, form, ids[1..])
  }

  predicate NoDuplicates(ids: seq<int>) {
    forall i, j :: 0 <= i < j < |ids| ==> ids[i] != ids[j]
  }

  /** The ids a list holds, as a set. */
  function Listed(ids: seq<int>): (r: set<int>)
    ensures forall x :: x in r <==> x in ids
  {
    if ids == [] then {} else {ids[0]} + Listed(ids[1..])
  }

  /** How many entries of a list lie in a set. */
  function CountIn(c: set<int>, ids: seq<int>): nat {
    if ids == [] then 0 else (if ids[0] in c then 1 else 0) + CountIn(c, ids[1..])
  }

  lemma {:induction false} ScoreAlongIsCountIn(questions: map<int, Question>, form: Form, ids: seq<int>)
    ensures ScoreAlong(questions, form, ids) == CountIn(CorrectIds(questions, form), ids)
  {
    if ids != [] {
      ScoreAlongIsCountIn(questions, form, ids[1..]);
    }
  }

  lemma {:induction false} CountInDistinct(c: set<int>, ids: seq<int>)
    requires NoDuplicates(ids)
    ensures CountIn(c, ids) == |c * Listed(ids)|
  {
    if ids != [] {
      var rest := ids[1..];
      TailOfDistinct(ids);
      CountInDistinct(c, rest);
      HeadAdded(c, ids[0], Listed(rest));
      assert Listed(ids) == {ids[0]} + Listed(rest);
    }
  }

  /** Proof helper: the tail of a duplicate-free list is duplicate-free and
      does not hold the head. */
  lemma TailOfDistinct(ids: seq<int>)
    requires ids != [] && NoDuplicates(ids)
    ensures NoDuplicates(ids[1..]) && ids[0] !in Listed(ids[1..])
  {
    var rest := ids[1..];
    forall i, j | 0 <= i < j < |rest| ensures rest[i] != rest[j] {
      assert rest[i] == ids[i + 1] && rest[j] == ids[j + 1];
    }
    forall k | 0 <= k < |rest| ensures rest[k] != ids[0] {
      assert rest[k] == ids[k + 1];
    }
  }

  /** Proof helper: adding a new element x to l adds one to |c * l| exactly
      when x is in c. */
  lemma HeadAdded(c: set<int>, x: int, l: set<int>)
    requires x !in l
    ensures |c * ({x} + l)| == |c * l| + (if x in c then 1 else 0)
  {
    if x in c {
      assert c * ({x} + l) == (c * l) + {x};
    } else {
      assert c * ({x} + l) == c * l;
    }
  }

  /** The order in which the table yields its questions never changes the
      score: counting along any duplicate-free listing of the table gives it. */
  lemma ScoreIndependentOfOrder(questions: map<int, Question>, form: Form, ids: seq<int>)
    requires NoDuplicates(ids)
    requires forall id :: id in ids <==> id in questions
    ensures ScoreAlong(questions, form, ids) == Score(questions, form)
  {
    ScoreAlongIsCountIn(questions, form, ids);
    CountInDistinct(CorrectIds(questions, form), ids);
    assert CorrectIds(questions, form) * Listed(ids) == CorrectIds(questions, form);
  }

  lemma SubsetCardinality(a: set<int>, b: set<int>)
    requires a <= b
    ensures |a| <= |b|
    ensures |a| == |b| ==> a == b
  {
    assert b == a + (b - a);
    if |a| == |b| {
      assert b - a == {};
    }
  }

  /** Proof helper, not a property of the application: membership of
      CorrectIds, one id at a time. */
  lemma CorrectIdsMember(questions: map<int, Question>, form: Form, id: int)
    ensures id in CorrectIds(questions, form) <==> id in questions && EarnsPoint(form, id, questions[id])
  {
  }

  /** Two sets that agree everywhere except possibly at one element differ in
      size by at most one, and not at all when they also agree there. */
  lemma SetsDifferingAtMostAt(a: set<int>, b: set<int>, x: int)
    requires forall k :: k != x ==> (k in a <==> k in b)
    ensures |a| <= |b| + 1 && |b| <= |a| + 1
    ensures x !in a ==> |a| <= |b|
    ensures x !in b ==> |b| <= |a|
    ensures (x in a <==> x in b) ==> |a| == |b|
  {
    var common := a - {x};
    forall k ensures k in b - {x} <==> k in common {
      if k != x { assert k in a <==> k in b; }
    }
    assert b - {x} == common;
    if x in a { assert a == common + {x}; } else { assert a == common; }
    if x in b { assert b == common + {x}; } else { assert b == common; }
  }

  /** Full marks exactly when every stored question is answered correctly. */
  lemma FullMarksIffAllCorrect(questions: map<int, Question>, form: Form)
    ensures Score(questions, form) == |questions| <==>
            forall id :: id in questions ==> EarnsPoint(form, id, questions[id])
  {
    var c := CorrectIds(questions, form);
    SubsetCardinality(c, questions.Keys);
    if Score(questions, form) == |questions| {
      assert c == questions.Keys;
    } else {
      assert c != questions.Keys;
    }
  }

  /** No point at all exactly when no stored question is answered correctly;
      in particular an empty table, or a form without any answer field,
      scores 0. */
  lemma ZeroIffNoneCorrect(questions: map<int, Question>, form: Form)
    ensures Score(questions, form) == 0 <==>
            forall id :: id in questions ==> !EarnsPoint(form, id, questions[id])
  {
    var c := CorrectIds(questions, form);
    if forall id :: id in questions ==> !EarnsPoint(form, id, questions[id]) {
      assert c == {};
    } else {
      var id :| id in questions && EarnsPoint(form, id, questions[id]);
      assert id in c;
    }
  }

  /** A submission carrying only the student's name scores 0, whatever the
      table holds: no answer field is called "name". */
  lemma NameOnlyScoresZero(questions: map<int, Question>, name: string)
    ensures Score(questions, map["name" := name]) == 0
  {
    var form := map["name" := name];
    forall id | id in questions ensures !EarnsPoint(form, id, questions[id]) {
      var key := AnswerKey(id);
      assert key[0] == '-' || Decimal.IsDigit(key[0]);
      assert key != "name";
    }
    ZeroIffNoneCorrect(questions, form);
  }

  /** A question's point depends only on its own field. */
  lemma PointDependsOnOwnField(form: Form, id: int, other: int, value: string, q: Question)
    requires other != id
    ensures EarnsPoint(form[AnswerKey(other) := value], id, q) == EarnsPoint(form, id, q)
  {
    if AnswerKey(other) == AnswerKey(id) {
      Decimal.IntToStringInjective(other, id);
    }
  }
}
