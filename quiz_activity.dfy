/** The quiz activity as an object: the fields the Java activity keeps and its
    click handlers, which update those fields in place. Each handler is proved to
    leave the state that the matching function of QuizModel describes, and to
    show the same toasts. */
module GeoQuiz {
  import opened JavaInt
  import opened QuizModel

  class QuizActivity {
    var currentIndex: int
    var answerHistory: seq<int>
    var correctAnswers: int
    var trueEnabled: bool
    var falseEnabled: bool
    var prevEnabled: bool
    var nextEnabled: bool
    /** The text resource shown in the question view. */
    var questionText: QuestionText

    /** The quiz state held in the fields. */
    function State(): (s: QuizState)
      reads this
    {
      QuizState(currentIndex, answerHistory, correctAnswers,
                trueEnabled, falseEnabled, prevEnabled, nextEnabled)
    }

    /** The state is valid and the question view shows the current question. */
    ghost predicate Valid()
      reads this
    {
      ValidState(State()) && questionText == QUESTION_BANK[currentIndex].textResId
    }

    /** `onCreate`: a fresh quiz, at the index of the saved bundle when there is
        one, showing its question. */
    constructor (savedInstanceState: Option<Bundle>)
      requires BundleFits(savedInstanceState)
      ensures Valid()
      ensures State() == Created(savedInstanceState)
    {
      currentIndex := 0;
      answerHistory := [];
      correctAnswers := 0;
      trueEnabled, falseEnabled, prevEnabled, nextEnabled := true, true, true, true;
      new;
      if savedInstanceState.Some? {
        currentIndex := GetInt(savedInstanceState.value, KEY_INDEX, 0);
      }
      UpdateQuestion();
    }

    /** `updateQuestion`: shows the current question's text. */
    method UpdateQuestion()
      requires 0 <= currentIndex < N
      modifies this`questionText
      ensures questionText == QUESTION_BANK[currentIndex].textResId
    {
      questionText := QUESTION_BANK[currentIndex].textResId;
    }

    /** `toggleTFButtons`: sets both answer buttons at once. */
    method ToggleTFButtons(state: bool)
      modifies this`trueEnabled, this`falseEnabled
      ensures trueEnabled == state && falseEnabled == state
    {
      trueEnabled := state;
      falseEnabled := state;
    }

    /** `hasBeenAnswered`: the answer buttons are enabled exactly when the current
        question is not in the history. */
    method HasBeenAnswered()
      modifies this`trueEnabled, this`falseEnabled
      ensures trueEnabled == falseEnabled == (currentIndex !in answerHistory)
      ensures State() == QuizModel.HasBeenAnswered(old(State()))
    {
      if currentIndex in answerHistory {
        ToggleTFButtons(false);
      } else {
        ToggleTFButtons(true);
      }
    }

    /** The question text's click listener. */
    method OnQuestionTextClick()
      requires Valid()
      modifies this
      ensures Valid()
      ensures State() == AfterTextClick(old(State()))
    {
      JavaRemNeighbour(currentIndex + 1, N);
      currentIndex := JavaRem(currentIndex + 1, N);
      UpdateQuestion();
    }

    /** The Prev button's click listener. */
    method OnPrevClick() returns (shown: seq<Notice>)
      requires Valid()
      modifies this
      ensures Valid()
      ensures State() == AfterPrev(old(State())).state
      ensures shown == AfterPrev(old(State())).shown
    {
      shown := [];
      JavaRemNeighbour(currentIndex - 1, N);
      currentIndex := JavaRem(currentIndex - 1, N);
      if currentIndex < 0 {
        shown := [BeginningQuestion];
        currentIndex := 0;
        prevEnabled := false;
      } else {
        UpdateQuestion();
        HasBeenAnswered();
        nextEnabled := true;
      }
    }

    /** The Next button's click listener. */
    method OnNextClick() returns (shown: seq<Notice>)
      requires Valid()
      modifies this
      ensures Valid()
      ensures State() == AfterNext(old(State())).state
      ensures shown == AfterNext(old(State())).shown
    {
      ghost var before := State();
      ghost var after := AfterNext(before);
      shown := [];
      JavaRemNeighbour(currentIndex + 1, N);
      currentIndex := JavaRem(currentIndex + 1, N);
      if currentIndex == 0 {
        assert after == Outcome(before.(nextEnabled := false), after.shown);
        currentIndex := N - 1;
        nextEnabled := false;
        if |answerHistory| != N {
          shown := [UnansweredQuestions];
        }
      } else {
        UpdateQuestion();
        HasBeenAnswered();
        prevEnabled := true;
        assert after == Outcome(State(), []);
      }
    }

    /** `checkAnswer`, called by the True and False buttons' click listeners. */
    method CheckAnswer(userPressedTrue: bool) returns (shown: seq<Notice>)
      requires Valid()
      modifies this
      ensures Valid()
      ensures State() == AfterAnswer(old(State()), userPressedTrue).state
      ensures shown == AfterAnswer(old(State()), userPressedTrue).shown
    {
      var answerIsTrue := QUESTION_BANK[currentIndex].answerTrue;
      var feedback: Notice;
      if userPressedTrue == answerIsTrue {
        feedback := CorrectToast;
        correctAnswers := correctAnswers + 1;
      } else {
        feedback := IncorrectToast;
      }
      shown := [feedback];
      ToggleTFButtons(false);
      answerHistory := answerHistory + [currentIndex];
      if |answerHistory| == N {
        var score := ScoreQuiz();
        shown := shown + [score];
      }
    }

    /** `scoreQuiz`: the score toast, carrying the percentage of the bank answered
        correctly. */
    method ScoreQuiz() returns (notice: Notice)
      ensures notice.QuizScore?
      ensures notice.percent * (N as real) == (correctAnswers as real) * 100.0
    {
      var gradeTotal := ((correctAnswers as real) / (N as real)) * 100.0;
      notice := QuizScore(gradeTotal);
    }

    /** `onSaveInstanceState`: puts the current index into the outgoing bundle, so
        that the activity recreated from it starts at the same question. */
    method OnSaveInstanceState(outState: Bundle) returns (saved: Bundle)
      requires Valid()
      ensures saved == Saved(State(), outState)
      ensures BundleFits(Some(saved)) && Created(Some(saved)).index == currentIndex
    {
      saved := outState[KEY_INDEX := currentIndex];
    }
  }
}
