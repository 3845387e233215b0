/** The GeoQuiz state machine as values: the question bank, the quiz state the
    activity keeps in its fields, and what each click handler does to it.
    The functions follow the Java handlers branch by branch (including Java's
    truncating `%`); their `ensures` clauses say what each handler means. */
module QuizModel {
  import opened JavaInt

  datatype Option<T> = None | Some(value: T)

  /** The string resources that hold the six question texts. */
  datatype QuestionText = Australia | Oceans | Mideast | Africa | Americas | Asia

  /** A question: the resource holding its text, and whether "true" is the right answer. */
  datatype Question = Question(textResId: QuestionText, answerTrue: bool)

  /** The fixed question bank of the activity. */
  const QUESTION_BANK: seq<Question> := [
    Question(Australia, true),
    Question(Oceans, true),
    Question(Mideast, false),
    Question(Africa, false),
    Question(Americas, true),
    Question(Asia, true)
  ]

  /** The number of questions, `mQuestionBank.length`. */
  const N: nat := |QUESTION_BANK|

  /** The toasts the activity shows, by their string resource; the score toast
      carries the percentage, kept as an exact rational. */
  datatype Notice =
    | CorrectToast
    | IncorrectToast
    | BeginningQuestion
    | UnansweredQuestions
    | QuizScore(percent: real)

  /** The activity's quiz state: the current index, the indices answered so far
      in answer order, the number of correct answers and the enabled flags of the
      True, False, Prev and Next buttons. */
  datatype QuizState = QuizState(
    index: int,
    history: seq<int>,
    correct: int,
    trueEnabled: bool,
    falseEnabled: bool,
    prevEnabled: bool,
    nextEnabled: bool)

  /** What a handler leaves behind: the new state and the toasts it showed, in order. */
  datatype Outcome = Outcome(state: QuizState, shown: seq<Notice>)

  /** What every reachable state satisfies, whichever clicks led to it. */
  predicate ValidState(s: QuizState) {
    && 0 <= s.index < N
    && (forall k :: 0 <= k < |s.history| ==> 0 <= s.history[k] < N)
    && 0 <= s.correct <= |s.history|
    && s.trueEnabled == s.falseEnabled
  }

  predicate NoDuplicates(h: seq<int>) {
    forall j, k :: 0 <= j < k < |h| ==> h[j] != h[k]
  }

  /** The repeat-answer guard is in force: no question was answered twice, the
      answer buttons are enabled exactly when the current question is unanswered,
      and a navigation button is disabled only at its own end of the bank. */
  predicate Guarded(s: QuizState) {
    && ValidState(s)
    && NoDuplicates(s.history)
    && (s.trueEnabled <==> s.index !in s.history)
    && (!s.prevEnabled ==> s.index == 0)
    && (!s.nextEnabled ==> s.index == N - 1)
  }

  /** `answerHistory.contains(index)`. */
  predicate IsAnswered(history: seq<int>, index: int) {
    index in history
  }

  /** `hasBeenAnswered`: the answer buttons are enabled exactly when the current
      question has not been answered. */
  function HasBeenAnswered(s: QuizState): (r: QuizState)
    ensures r.trueEnabled == r.falseEnabled == (s.index !in s.history)
    ensures r == s.(trueEnabled := r.trueEnabled, falseEnabled := r.falseEnabled)
  {
    if IsAnswered(s.history, s.index) then
      s.(trueEnabled := false, falseEnabled := false)
    else
      s.(trueEnabled := true, falseEnabled := true)
  }

  /** Clicking the question text: `(index + 1) % length`, no other change. */
  function AfterTextClick(s: QuizState): (r: QuizState)
    requires ValidState(s)
    ensures ValidState(r)
    ensures r.index == if s.index == N - 1 then 0 else s.index + 1
    ensures r == s.(index := r.index)
  {
    JavaRemNeighbour(s.index + 1, N);
    s.(index := JavaRem(s.index + 1, N))
  }

  /** Clicking Next: `(index + 1) % length`; a result of 0 means the end was passed,
      so the index goes back to the last question and Next is disabled. */
  function AfterNext(s: QuizState): (o: Outcome)
    requires ValidState(s)
    ensures ValidState(o.state)
    ensures o.state.history == s.history && o.state.correct == s.correct
    ensures s.index < N - 1 ==>
      && o.state == HasBeenAnswered(s.(index := s.index + 1, prevEnabled := true))
      && o.shown == []
    ensures s.index == N - 1 ==>
      && o.state == s.(nextEnabled := false)
      && (o.shown == [UnansweredQuestions] <==> |s.history| != N)
      && (o.shown == [] <==> |s.history| == N)
  {
    JavaRemNeighbour(s.index + 1, N);
    var i := JavaRem(s.index + 1, N);
    if i == 0 then
      var t := s.(index := N - 1, nextEnabled := false);
      Outcome(t, if |s.history| != N then [UnansweredQuestions] else [])
    else
      Outcome(HasBeenAnswered(s.(index := i, prevEnabled := true)), [])
  }

  /** Clicking Prev: `(index - 1) % length`, which Java leaves at -1 from the first
      question; that case keeps the index at 0, disables Prev and shows the
      "beginning" toast instead of wrapping to the last question. */
  function AfterPrev(s: QuizState): (o: Outcome)
    requires ValidState(s)
    ensures ValidState(o.state)
    ensures o.state.history == s.history && o.state.correct == s.correct
    ensures s.index > 0 ==>
      && o.state == HasBeenAnswered(s.(index := s.index - 1, nextEnabled := true))
      && o.shown == []
    ensures s.index == 0 ==>
      && o.state == s.(prevEnabled := false)
      && o.shown == [BeginningQuestion]
  {
    JavaRemNeighbour(s.index - 1, N);
    var i := JavaRem(s.index - 1, N);
    if i < 0 then
      Outcome(s.(index := 0, prevEnabled := false), [BeginningQuestion])
    else
      Outcome(HasBeenAnswered(s.(index := i, nextEnabled := true)), [])
  }

  /** `scoreQuiz`: the percentage of the whole bank answered correctly. */
  function Score(correct: int): (percent: real)
    ensures percent * (N as real) == (correct as real) * 100.0
    ensures 0 <= correct <= N ==> 0.0 <= percent <= 100.0
    ensures correct == N ==> percent == 100.0
  {
    ((correct as real) / (N as real)) * 100.0
  }

  /** `checkAnswer`: counts a correct answer, shows the feedback toast, disables
      the answer buttons, records the current index, and shows the score once the
      history holds as many entries as the bank has questions. It has no guard of
      its own: only the disabled buttons keep a question from being answered again. */
  function AfterAnswer(s: QuizState, userPressedTrue: bool): (o: Outcome)
    requires ValidState(s)
    ensures ValidState(o.state)
    ensures o.state.index == s.index
    ensures o.state.history == s.history + [s.index]
    ensures !o.state.trueEnabled && !o.state.falseEnabled
    ensures o.state.prevEnabled == s.prevEnabled && o.state.nextEnabled == s.nextEnabled
    ensures |o.shown| == if |s.history| + 1 == N then 2 else 1
    ensures |s.history| + 1 == N ==> o.shown[1] == QuizScore(Score(o.state.correct))
    ensures userPressedTrue == QUESTION_BANK[s.index].answerTrue ==>
      o.state.correct == s.correct + 1 && o.shown[0] == CorrectToast
    ensures userPressedTrue != QUESTION_BANK[s.index].answerTrue ==>
      o.state.correct == s.correct && o.shown[0] == IncorrectToast
  {
    var answerIsTrue := QUESTION_BANK[s.index].answerTrue;
    var correct := if userPressedTrue == answerIsTrue then s.correct + 1 else s.correct;
    var feedback := if userPressedTrue == answerIsTrue then CorrectToast else IncorrectToast;
    var t := s.(correct := correct, trueEnabled := false, falseEnabled := false);
    var history := t.history + [t.index];
    Outcome(t.(history := history),
            [feedback] + if |history| == N then [QuizScore(Score(correct))] else [])
  }

  /** The instance-state bundle, reduced to its integer entries. */
  type Bundle = map<string, int>

  const KEY_INDEX: string := "index"

  /** `Bundle.getInt(key, defaultValue)`. */
  function GetInt(b: Bundle, key: string, defaultValue: int): (v: int) {
    if key in b then b[key] else defaultValue
  }

  /** A saved bundle the activity can be recreated from: its index, if any, names
      a question of the bank. */
  predicate BundleFits(saved: Option<Bundle>) {
    saved.Some? ==> 0 <= GetInt(saved.value, KEY_INDEX, 0) < N
  }

  /** `onCreate`: a fresh quiz, at the saved index when a bundle is given. */
  function Created(saved: Option<Bundle>): (s: QuizState)
    requires BundleFits(saved)
    ensures Guarded(s)
    ensures s.history == [] && s.correct == 0
    ensures s.trueEnabled && s.falseEnabled && s.prevEnabled && s.nextEnabled
    ensures saved.None? ==> s.index == 0
    ensures saved.Some? && KEY_INDEX !in saved.value ==> s.index == 0
    ensures saved.Some? && KEY_INDEX in saved.value ==> s.index == saved.value[KEY_INDEX]
  {
    var index := if saved.Some? then GetInt(saved.value, KEY_INDEX, 0) else 0;
    QuizState(index, [], 0, true, true, true, true)
  }

  /** `onSaveInstanceState`: the bundle with the current index put under KEY_INDEX. */
  function Saved(s: QuizState, outState: Bundle): (b: Bundle)
    ensures KEY_INDEX in b && b[KEY_INDEX] == s.index
    ensures forall k :: k in outState && k != KEY_INDEX ==> k in b && b[k] == outState[k]
    ensures b.Keys == outState.Keys + {KEY_INDEX}
  {
    outState[KEY_INDEX := s.index]
  }

  /** Saving and recreating keeps the index and nothing else: the history and the
      count of correct answers start over. */
  lemma RestoreAfterSave(s: QuizState, outState: Bundle)
    requires ValidState(s)
    ensures BundleFits(Some(Saved(s, outState)))
    ensures Created(Some(Saved(s, outState))) == QuizState(s.index, [], 0, true, true, true, true)
  {
  }
}
