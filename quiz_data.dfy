/** The two tables of the quiz application, the submitted form and the
    ways a handler can fail. */
module QuizData {

  datatype Option<+T> = None | Some(value: T)

  datatype Result<+T, +E> = Ok(value: T) | Err(error: E)

  /** A row of the question table without its id: the id is the key under
      which the row is stored. `correctOption` is free text, as in the
      source: nothing checks that it is one of "A" to "D". */
  datatype Question = Question(
    questionText: string,
    optionA: string,
    optionB: string,
    optionC: string,
    optionD: string,
    correctOption: string)

  /** A row of the score table. Its id column is left out: no handler reads it. */
  datatype StudentScore = StudentScore(name: string, score: nat)

  /** A submitted form: each field name with the first value sent for it. */
  type Form = map<string, string>

  /** Why a handler stops without committing anything. */
  datatype Failure =
    | MissingField(field: string)   // request.form[field] raises KeyError
    | NotAnInteger(text: string)    // int(text) raises ValueError
    | IdOutOfRange(id: int)         // binding id to an SQLite INTEGER raises OverflowError
    | NoSuchQuestion(id: int)       // Query.get(id) gives None, which is then used
    | NoSuchResult                  // filter_by(name=...).first() gives None

  datatype Outcome = Done | Failed(failure: Failure)

  /** The ids SQLite can bind and store: signed 64-bit integers. */
  predicate IsRowId(id: int) {
    -0x8000_0000_0000_0000 <= id <= 0x7FFF_FFFF_FFFF_FFFF
  }

  /** The value the source reads with request.form.get(field). */
  function Get(form: Form, field: string): (r: Option<string>)
    ensures r.Some? <==> field in form
    ensures r.Some? ==> r.value == form[field]
  {
    if field in form then Some(form[field]) else None
  }

  /** Proof helper, not a property of the application: a non-empty set has
      an element to pick, for the loops that visit a table's ids one at a
      time. */
  lemma NonEmptyHasElement(s: set<int>)
    requires s != {}
    ensures exists x :: x in s
  {
    if forall x :: x !in s {
      assert false;
    }
  }
}
