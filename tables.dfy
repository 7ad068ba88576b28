/** What the handlers of app.py ask of the two tables: the rows a
    manage-questions form describes, the change each action makes to the
    question table, and the first-by-name lookup of the result page. */
module Tables {
  import opened QuizData
  import Decimal
  import opened Scoring

  // ---------------------------------------------------------------------
  // Reading a question out of a form (add and edit branches)
  // ---------------------------------------------------------------------

  /** The six fields the add and edit branches read, in the order they read them. */
  const QuestionFields: seq<string> :=
    ["question_text", "option_a", "option_b", "option_c", "option_d", "correct_option"]

  predicate HasQuestionFields(form: Form) {
    && "question_text" in form && "option_a" in form && "option_b" in form
    && "option_c" in form && "option_d" in form && "correct_option" in form
  }

  /** The row the form describes, or the first field it lacks. */
  function QuestionFromForm(form: Form): (r: Result<Question, Failure>)
    ensures r.Ok? <==> HasQuestionFields(form)
    ensures r.Ok? ==>
      && r.value.questionText == form["question_text"]
      && r.value.optionA == form["option_a"]
      && r.value.optionB == form["option_b"]
      && r.value.optionC == form["option_c"]
      && r.value.optionD == form["option_d"]
      && r.value.correctOption == form["correct_option"]
    ensures r.Err? ==> r.error.MissingField? && r.error.field in QuestionFields && r.error.field !in form
  {
    if "question_text" !in form then Err(MissingField("question_text"))
    else if "option_a" !in form then Err(MissingField("option_a"))
    else if "option_b" !in form then Err(MissingField("option_b"))
    else if "option_c" !in form then Err(MissingField("option_c"))
    else if "option_d" !in form then Err(MissingField("option_d"))
    else if "correct_option" !in form then Err(MissingField("correct_option"))
    else Ok(Question(form["question_text"], form["option_a"], form["option_b"],
                     form["option_c"], form["option_d"], form["correct_option"]))
  }

  /** The failure names the first of the six fields, in reading order, that
      the form lacks. */
  lemma QuestionFromFormReportsFirstMissing(form: Form)
    requires !HasQuestionFields(form)
    ensures exists k :: (0 <= k < |QuestionFields| &&
      QuestionFromForm(form) == Err(MissingField(QuestionFields[k])) && QuestionFields[k] !in form &&
      forall j :: 0 <= j < k ==> QuestionFields[j] in form)
  {
    var fs := QuestionFields;
    var k := if fs[0] !in form then 0 else if fs[1] !in form then 1 else if fs[2] !in form then 2
             else if fs[3] !in form then 3 else if fs[4] !in form then 4 else 5;
    assert QuestionFromForm(form) == Err(MissingField(fs[k]));
    assert forall j :: 0 <= j < k ==> fs[j] in form;
  }

  // ---------------------------------------------------------------------
  // Which action, which id
  // ---------------------------------------------------------------------

  datatype Action = Add | Edit | Delete | NoAction

  /** form.get('action') compared with the three names; anything else,
      including a missing field, selects no action. */
  function ActionOf(form: Form): (act: Action)
    ensures act == Add <==> Get(form, "action") == Some("add")
    ensures act == Edit <==> Get(form, "action") == Some("edit")
    ensures act == Delete <==> Get(form, "action") == Some("delete")
    ensures "action" !in form ==> act == NoAction
  {
    match Get(form, "action")
    case Some(a) =>
      if a == "add" then Add else if a == "edit" then Edit
      else if a == "delete" then Delete else NoAction
    case None => NoAction
  }

  /** int(request.form['question_id']): the field must be there and must be
      an integer in the form int() reads; a text of k characters gives an id
      of at most k digits. */
  function RequestedId(form: Form): (r: Result<int, Failure>)
    ensures "question_id" !in form ==> r == Err(MissingField("question_id"))
    ensures "question_id" in form && r.Err? ==> r == Err(NotAnInteger(form["question_id"]))
    ensures r.Ok? ==> ("question_id" in form &&
      -(Decimal.Pow10(|form["question_id"]|) as int) < r.value < Decimal.Pow10(|form["question_id"]|))
    ensures ("question_id" in form && Decimal.AllDigits(form["question_id"]) &&
      |form["question_id"]| > Decimal.MaxStrDigits) ==> r.Err?
    ensures ("question_id" in form &&
      exists i :: 1 <= i < |form["question_id"]| && !Decimal.IsDigit(form["question_id"][i])) ==>
      r == Err(NotAnInteger(form["question_id"]))
  {
    match Get(form, "question_id")
    case None => Err(MissingField("question_id"))
    case Some(text) =>
      match Decimal.ParseInt(text)
      case Some(id) => Ok(id)
      case None => Err(NotAnInteger(text))
  }

  /** An id the question list wrote into the form with str() is the id the
      edit and delete branches look up. */
  lemma RequestedIdOfListedId(form: Form, id: int)
    requires IsRowId(id)
    requires "question_id" in form && form["question_id"] == Decimal.IntToString(id)
    ensures RequestedId(form) == Ok(id)
  {
    Decimal.RowIdRoundTrip(id);
  }

  /** An id text of at most 18 characters can never overflow SQLite's
      64-bit INTEGER: only longer texts reach the out-of-range failure. */
  lemma ShortIdTextIsRowId(form: Form)
    requires "question_id" in form && |form["question_id"]| <= 18
    ensures RequestedId(form).Ok? ==> IsRowId(RequestedId(form).value)
  {
    var k := |form["question_id"]|;
    assert Decimal.Pow10(6) == 1_000_000;
    assert Decimal.Pow10(12) == 1_000_000_000_000;
    assert Decimal.Pow10(18) == 1_000_000_000_000_000_000;
    Pow10Monotone(k, 18);
  }

  lemma {:induction false} Pow10Monotone(j: nat, k: nat)
    requires j <= k
    ensures Decimal.Pow10(j) <= Decimal.Pow10(k)
  {
    if j < k {
      Pow10Monotone(j, k - 1);
    }
  }

  /** The edit branch up to its commit: the id and the new row, or why it
      stops. Query.get binds the id, so an id outside 64 bits fails there,
      before anything else is read. Python evaluates the right-hand side of
      the first assignment (question_text) before it dereferences the
      looked-up row, so a missing question_text is reported before an
      absent id. */
  function EditRequest(questions: map<int, Question>, form: Form): (r: Result<(int, Question), Failure>)
    ensures RequestedId(form).Err? ==> r == Err(RequestedId(form).error)
    ensures RequestedId(form).Ok? && !IsRowId(RequestedId(form).value) ==>
      r == Err(IdOutOfRange(RequestedId(form).value))
    ensures RequestedId(form).Ok? && IsRowId(RequestedId(form).value) && "question_text" !in form ==>
      r == Err(MissingField("question_text"))
    ensures (RequestedId(form).Ok? && IsRowId(RequestedId(form).value) && "question_text" in form &&
      RequestedId(form).value !in questions) ==>
      r == Err(NoSuchQuestion(RequestedId(form).value))
    ensures r.Ok? <==>
      && RequestedId(form).Ok? && IsRowId(RequestedId(form).value)
      && RequestedId(form).value in questions && QuestionFromForm(form).Ok?
    ensures r.Ok? ==> r.value == (RequestedId(form).value, QuestionFromForm(form).value)
    ensures (RequestedId(form).Ok? && IsRowId(RequestedId(form).value) &&
      RequestedId(form).value in questions && QuestionFromForm(form).Err?) ==>
      r == Err(QuestionFromForm(form).error)
    ensures r.Err? && !r.error.NoSuchQuestion? && !r.error.IdOutOfRange? && RequestedId(form).Ok? ==>
      r.error.MissingField? && r.error.field in QuestionFields && r.error.field !in form
  {
    match RequestedId(form)
    case Err(f) => Err(f)
    case Ok(id) =>
      if !IsRowId(id) then Err(IdOutOfRange(id))
      else if "question_text" !in form then Err(MissingField("question_text"))
      else if id !in questions then Err(NoSuchQuestion(id))
      else
        match QuestionFromForm(form)
        case Err(f) => Err(f)
        case Ok(q) => Ok((id, q))
  }

  /** The delete branch up to its commit: the id to remove, or why it stops. */
  function DeleteRequest(questions: map<int, Question>, form: Form): (r: Result<int, Failure>)
    ensures RequestedId(form).Err? ==> r == Err(RequestedId(form).error)
    ensures RequestedId(form).Ok? && !IsRowId(RequestedId(form).value) ==>
      r == Err(IdOutOfRange(RequestedId(form).value))
    ensures (RequestedId(form).Ok? && IsRowId(RequestedId(form).value) &&
      RequestedId(form).value !in questions) ==>
      r == Err(NoSuchQuestion(RequestedId(form).value))
    ensures r.Ok? <==>
      RequestedId(form).Ok? && IsRowId(RequestedId(form).value) && RequestedId(form).value in questions
    ensures r.Ok? ==> r.value == RequestedId(form).value
  {
    match RequestedId(form)
    case Err(f) => Err(f)
    case Ok(id) =>
      if !IsRowId(id) then Err(IdOutOfRange(id))
      else if id in questions then Ok(id)
      else Err(NoSuchQuestion(id))
  }

  // ---------------------------------------------------------------------
  // The change each action makes to the question table
  // ---------------------------------------------------------------------

  /** One new row q under an id not in use before; every old row kept. */
  predicate Inserted(before: map<int, Question>, after: map<int, Question>, id: int, q: Question) {
    && id !in before
    && after.Keys == before.Keys + {id}
    && after[id] == q
    && forall k :: k in before ==> after[k] == before[k]
  }

  /** Row id overwritten by q, keeping its id; every other row kept. */
  predicate Overwritten(before: map<int, Question>, after: map<int, Question>, id: int, q: Question) {
    && id in before
    && after.Keys == before.Keys
    && after[id] == q
    && forall k :: k in before && k != id ==> after[k] == before[k]
  }

  /** Row id gone; every other row kept. */
  predicate Removed(before: map<int, Question>, after: map<int, Question>, id: int) {
    && id in before
    && after.Keys == before.Keys - {id}
    && forall k :: k in after ==> after[k] == before[k]
  }

  /** An insertion is exactly a map update at a fresh key, and adds one row
      that the next listing shows. */
  lemma InsertedIff(before: map<int, Question>, after: map<int, Question>, id: int, q: Question)
    ensures Inserted(before, after, id, q) <==> id !in before && after == before[id := q]
    ensures Inserted(before, after, id, q) ==> |after| == |before| + 1 && q in after.Values
  {
    if Inserted(before, after, id, q) {
      var updated := before[id := q];
      assert after.Keys == updated.Keys;
      assert forall k :: k in after ==> after[k] == updated[k];
      assert after == updated;
      assert |before.Keys + {id}| == |before.Keys| + 1;
      assert after[id] in after.Values;
    }
  }

  /** An edit is exactly a map update at a key in use, and keeps the row count. */
  lemma OverwrittenIff(before: map<int, Question>, after: map<int, Question>, id: int, q: Question)
    ensures Overwritten(before, after, id, q) <==> id in before && after == before[id := q]
    ensures Overwritten(before, after, id, q) ==> |after| == |before| && q in after.Values
  {
    if Overwritten(before, after, id, q) {
      var updated := before[id := q];
      assert after.Keys == updated.Keys;
      assert forall k :: k in after ==> after[k] == updated[k];
      assert after == updated;
      assert |after.Keys| == |before.Keys|;
    }
  }

  /** A deletion is exactly the removal of a key in use, and drops one row
      that the next listing no longer shows. */
  lemma RemovedIff(before: map<int, Question>, after: map<int, Question>, id: int)
    ensures Removed(before, after, id) <==> id in before && after == before - {id}
    ensures Removed(before, after, id) ==> |after| == |before| - 1 && id !in after
  {
    if Removed(before, after, id) {
      var removed := before - {id};
      assert after.Keys == removed.Keys;
      assert forall k :: k in after ==> after[k] == removed[k];
      assert after == removed;
      assert before.Keys == after.Keys + {id};
      assert |before.Keys| == |after.Keys| + 1;
    }
  }

  // ---------------------------------------------------------------------
  // What the changes do to the score of a later submission
  // ---------------------------------------------------------------------

  /** Deleting a question takes away at most its own point. */
  lemma RemovalLowersScoreByAtMostOne(before: map<int, Question>, after: map<int, Question>, id: int, form: Form)
    requires Removed(before, after, id)
    ensures Score(after, form) <= Score(before, form) <= Score(after, form) + 1
  {
    var b := CorrectIds(before, form);
    var a := CorrectIds(after, form);
    forall k | k != id ensures k in a <==> k in b {
      CorrectIdsMember(before, form, k);
      CorrectIdsMember(after, form, k);
    }
    CorrectIdsMember(after, form, id);
    SetsDifferingAtMostAt(a, b, id);
  }

  /** Adding a question can add at most its own point. */
  lemma InsertionRaisesScoreByAtMostOne(before: map<int, Question>, after: map<int, Question>, id: int, q: Question, form: Form)
    requires Inserted(before, after, id, q)
    ensures Score(before, form) <= Score(after, form) <= Score(before, form) + 1
  {
    var b := CorrectIds(before, form);
    var a := CorrectIds(after, form);
    forall k | k != id ensures k in a <==> k in b {
      CorrectIdsMember(before, form, k);
      CorrectIdsMember(after, form, k);
    }
    CorrectIdsMember(before, form, id);
    SetsDifferingAtMostAt(a, b, id);
  }

  /** Editing a question moves a later score by at most one point, and not at
      all when the edit keeps its correct option. */
  lemma EditMovesScoreByAtMostOne(before: map<int, Question>, after: map<int, Question>, id: int, q: Question, form: Form)
    requires Overwritten(before, after, id, q)
    ensures Score(after, form) <= Score(before, form) + 1
    ensures Score(before, form) <= Score(after, form) + 1
    ensures q.correctOption == before[id].correctOption ==> Score(after, form) == Score(before, form)
  {
    var b := CorrectIds(before, form);
    var a := CorrectIds(after, form);
    forall k | k != id ensures k in a <==> k in b {
      CorrectIdsMember(before, form, k);
      CorrectIdsMember(after, form, k);
    }
    CorrectIdsMember(before, form, id);
    CorrectIdsMember(after, form, id);
    SetsDifferingAtMostAt(a, b, id);
  }

  // ---------------------------------------------------------------------
  // The result page: the first score row with a name
  // ---------------------------------------------------------------------

  /** The position of the first row named name, in table order. */
  function FirstWithName(scores: seq<StudentScore>, name: string): (r: Option<nat>)
    ensures r.Some? ==> r.value < |scores| && scores[r.value].name == name
    ensures r.Some? ==> forall j :: 0 <= j < r.value ==> scores[j].name != name
    ensures r.None? <==> forall j :: 0 <= j < |scores| ==> scores[j].name != name
  {
    if scores == [] then None
    else if scores[0].name == name then Some(0)
    else
      match FirstWithName(scores[1..], name)
      case None => None
      case Some(i) => Some(i + 1)
  }

  /** result(): the row filter_by(name=...).first() yields, or a failure where
      the source dereferences None. A request without a name filters on
      NULL, which no row matches, since name is NOT NULL. */
  function ResultFor(scores: seq<StudentScore>, name: Option<string>): (r: Result<StudentScore, Failure>)
    ensures r.Err? ==> r.error == NoSuchResult
    ensures r.Err? <==> name.None? || forall j :: 0 <= j < |scores| ==> scores[j].name != name.value
    ensures r.Ok? ==> exists i :: 0 <= i < |scores| && scores[i] == r.value && r.value.name == name.value &&
                                  forall j :: 0 <= j < i ==> scores[j].name != name.value
  {
    match name
    case None => Err(NoSuchResult)
    case Some(n) =>
      match FirstWithName(scores, n)
      case None => Err(NoSuchResult)
      case Some(i) => Ok(scores[i])
  }

  /** Appending a row never changes which earlier row is first for a name; the
      new row is found only for a name no earlier row has. */
  lemma {:induction false} FirstWithNameAfterAppend(scores: seq<StudentScore>, row: StudentScore, name: string)
    ensures FirstWithName(scores + [row], name) ==
      if FirstWithName(scores, name).Some? then FirstWithName(scores, name)
      else if row.name == name then Some(|scores|)
      else None
  {
    if scores != [] {
      assert (scores + [row])[1..] == scores[1..] + [row];
      FirstWithNameAfterAppend(scores[1..], row, name);
    }
  }

  /** After a submission under name, the result page for name shows the
      earliest submission under that name: the new one only if it is the
      first. */
  lemma ResultAfterSubmission(scores: seq<StudentScore>, name: string, score: nat)
    ensures ResultFor(scores + [StudentScore(name, score)], Some(name)) ==
      if ResultFor(scores, Some(name)).Ok? then ResultFor(scores, Some(name))
      else Ok(StudentScore(name, score))
  {
    FirstWithNameAfterAppend(scores, StudentScore(name, score), name);
    var s := scores + [StudentScore(name, score)];
    match FirstWithName(scores, name)
    case Some(i) => assert s[i] == scores[i];
    case None =>
  }
}
