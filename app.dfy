/** The request handlers of app.py that change or read the tables,
    over an in-memory store that stands for the SQLite database. */
module QuizApp {
  import opened QuizData
  import opened Scoring
  import opened Tables

  /** The id SQLite gives a new row of an INTEGER PRIMARY KEY table: one more
      than the largest id in use, or 1 when the table is empty. */
  method NextId(ids: set<int>) returns (id: int)
    ensures ids == {} ==> id == 1
    ensures ids != {} ==> id - 1 in ids
    ensures forall k :: k in ids ==> k < id
  {
    if ids == {} {
      id := 1;
    } else {
      NonEmptyHasElement(ids);
      var first :| first in ids;
      id := first + 1;
      var pending := ids - {first};
      while pending != {}
        invariant pending <= ids
        invariant id - 1 in ids
        invariant forall k :: k in ids && k !in pending ==> k < id
        decreases pending
      {
        NonEmptyHasElement(pending);
        var next :| next in pending;
        if next >= id {
          id := next + 1;
        }
        pending := pending - {next};
      }
    }
  }

  /** The two tables. The question table maps each id to its row; the score
      table keeps its rows in insertion order, the order its queries return. */
  class QuizStore {
    var questions: map<int, Question>
    var scores: seq<StudentScore>

    /** A freshly created database: both tables empty. */
    constructor ()
      ensures questions == map[] && scores == []
    {
      questions := map[];
      scores := [];
    }

    /** Start-up: the five sample questions, with ids 1 to 5, when the
        question table is empty; otherwise nothing. */
    method SeedIfEmpty()
      modifies this`questions
      ensures scores == old(scores)
      ensures questions == if old(questions) == map[] then SampleQuestions() else old(questions)
    {
      if questions == map[] {
        questions := SampleQuestions();
      }
    }

    /** POST /quiz: score the submission against every stored question and
        append one score row under the submitted name. */
    method SubmitQuiz(form: Form) returns (outcome: Outcome)
      modifies this`scores
      ensures questions == old(questions)
      ensures "name" !in form ==> outcome == Failed(MissingField("name")) && scores == old(scores)
      ensures "name" in form ==>
        outcome == Done && scores == old(scores) + [StudentScore(form["name"], Score(questions, form))]
    {
      match Get(form, "name") {
        case None =>
          outcome := Failed(MissingField("name"));
        case Some(name) =>
          var score := ScoreSubmission(questions, form);
          scores := scores + [StudentScore(name, score)];
          outcome := Done;
      }
    }

    /** POST /scores: delete every score row when the form has a reset field. */
    method PostScores(form: Form)
      modifies this`scores
      ensures questions == old(questions)
      ensures "reset" in form ==> scores == []
      ensures "reset" !in form ==> scores == old(scores)
    {
      if "reset" in form {
        scores := [];
      }
    }

    /** POST /manage_questions: add, edit or delete one question as the
        action field says. A failure commits nothing. */
    method ManageQuestions(form: Form) returns (outcome: Outcome)
      modifies this`questions
      ensures scores == old(scores)
      ensures outcome.Failed? ==> questions == old(questions)
      ensures ActionOf(form) == NoAction ==> outcome == Done && questions == old(questions)
      ensures ActionOf(form) == Add ==>
        match QuestionFromForm(form)
        case Err(f) => outcome == Failed(f)
        case Ok(q) =>
          outcome == Done &&
          exists id :: Inserted(old(questions), questions, id, q) && forall k :: k in old(questions) ==> k < id
      ensures ActionOf(form) == Edit ==>
        match EditRequest(old(questions), form)
        case Err(f) => outcome == Failed(f)
        case Ok(req) => outcome == Done && Overwritten(old(questions), questions, req.0, req.1)
      ensures ActionOf(form) == Delete ==>
        match DeleteRequest(old(questions), form)
        case Err(f) => outcome == Failed(f)
        case Ok(id) => outcome == Done && Removed(old(questions), questions, id)
    {
      match ActionOf(form) {
        case Add =>
          match QuestionFromForm(form) {
            case Err(f) =>
              outcome := Failed(f);
            case Ok(q) =>
              var id := NextId(questions.Keys);
              questions := questions[id := q];
              outcome := Done;
              assert Inserted(old(questions), questions, id, q);
          }
        case Edit =>
          match EditRequest(questions, form) {
            case Err(f) =>
              outcome := Failed(f);
            case Ok(req) =>
              questions := questions[req.0 := req.1];
              outcome := Done;
          }
        case Delete =>
          match DeleteRequest(questions, form) {
            case Err(f) =>
              outcome := Failed(f);
            case Ok(id) =>
              questions := questions - {id};
              outcome := Done;
          }
        case NoAction =>
          outcome := Done;
      }
    }
  }

  /** The five questions the start-up block stores in an empty table, in
      the order it lists them. */
  const Sample1 := Question("What is the keyword used to define a function in Python?",
                            "func", "def", "function", "define", "B")
  const Sample2 := Question("Which of the following is a mutable data type in Python?",
                            "tuple", "string", "list", "int", "C")
  const Sample3 := Question("What is the output of print(2 ** 3)?",
                            "6", "8", "9", "None of the above", "B")
  const Sample4 := Question("Which of the following is used to handle exceptions in Python?",
                            "try-except", "if-else", "for-while", "do-while", "A")
  const Sample5 := Question("What is the correct file extension for Python files?",
                            ".pyth", ".pt", ".py", ".p", "C")

  /** The sample questions under the ids SQLite gives them in an empty table. */
  function SampleQuestions(): (qs: map<int, Question>)
    ensures qs.Keys == {1, 2, 3, 4, 5} && |qs| == 5
    ensures forall id :: id in qs ==> qs[id].correctOption in {"A", "B", "C", "D"}
  {
    map[1 := Sample1, 2 := Sample2, 3 := Sample3, 4 := Sample4, 5 := Sample5]
  }

  /** Alice's submission with every sample question answered correctly. */
  function SampleSubmission(): Form {
    map["name" := "Alice", "1" := "B", "2" := "C", "3" := "B", "4" := "A", "5" := "C"]
  }

  /** The right answers to the sample questions score 5. */
  lemma SampleSubmissionScoresFive()
    ensures Score(SampleQuestions(), SampleSubmission()) == 5
  {
    var qs := SampleQuestions();
    var form := SampleSubmission();
    forall id | id in qs ensures EarnsPoint(form, id, qs[id]) {
      OneDigitKey(id);
    }
    FullMarksIffAllCorrect(qs, form);
  }

  /** Alice submits the right answers to the seeded questions of a new
      database; her result page shows 5, and a name never submitted has no
      result page. */
  method AliceScenario() returns (shown: Result<StudentScore, Failure>, unknown: Result<StudentScore, Failure>)
    ensures shown == Ok(StudentScore("Alice", 5))
    ensures unknown == Err(NoSuchResult)
  {
    var app := new QuizStore();
    app.SeedIfEmpty();
    var outcome := app.SubmitQuiz(SampleSubmission());
    SampleSubmissionScoresFive();
    assert app.scores == [StudentScore("Alice", 5)];
    shown := ResultFor(app.scores, Some("Alice"));
    unknown := ResultFor(app.scores, Some("Unknown"));
  }
}
