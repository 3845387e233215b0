# GeoQuiz quiz controller in Dafny

GeoQuiz is a single-screen Android true/false quiz. `QuizActivity` holds a bank
of six questions, the index of the question on screen, the list of indices
answered so far, a counter of correct answers, and four buttons: True, False,
Prev and Next. Clicking a button or the question text runs a handler. The
handlers move the index, enable and disable buttons, record answers and show
toasts. When as many answers as questions have been recorded, the activity
shows a score toast. On rotation only the index is saved.

This project models that state machine and proves what it does.

- `java_int.dfy` (module `JavaInt`): Java's `/` and `%` on `int`, which round
  toward zero. The Prev handler relies on `(0 - 1) % 6 == -1`; Dafny's own `%`
  would give 5.
- `quiz_model.dfy` (module `QuizModel`): the question bank, the quiz state as a
  value, and one function per handler. Each function follows the Java branch by
  branch, using `JavaRem` where the Java uses `%`. Its `ensures` clauses say
  what the handler means:
  - Next and Prev clamp at the ends;
  - the text click wraps around;
  - an answer is recorded;
  - the score toast fires when the history reaches N entries.

  `ValidState` holds in every state any click can reach. `Guarded` is the
  repeat-answer discipline: no index recorded twice, answer buttons enabled
  exactly on unanswered questions, a navigation button disabled only at its own
  end.
- `quiz_run.dfy` (module `QuizRun`): sequences of clicks. A click on a disabled
  button never reaches its handler; the question text is always clickable. The
  lemmas show the following:
  - Clicks on the four buttons keep `Guarded`, so no question is answered twice.
  - Under that guard, the score toast appears at most once, and only once every
    question has been answered.
  - A question-text click can break the guard. A concrete click sequence records
    the first question twice and counts it correct twice. Repeating that cycle
    raises the correct count without bound. Answering the first question a sixth
    time shows a score of 100 percent, though no other question was answered.
- `quiz_activity.dfy` (module `GeoQuiz`): class `QuizActivity` with the
  activity's fields. Its methods mirror the Java handlers statement by statement,
  updating the fields in place. Each method is proved to leave exactly the state
  that the matching `QuizModel` function describes, and to show the same toasts.

## Model

| member | source | states |
|---|---|---|
| `JavaInt.JavaRem` | app/src/main/java/com/bignerdranch/android/geoquiz/QuizActivity.java:106 | Java's `%`: quotient times divisor plus remainder gives back the dividend; the remainder is zero or has the dividend's sign, and is smaller than the divisor in magnitude |
| `JavaInt.JavaRemNeighbour` | app/src/main/java/com/bignerdranch/android/geoquiz/QuizActivity.java:106-108 | on an index `0 <= i < n`, `(i + 1) % n` is `i + 1` except that `n - 1` gives 0, and `(i - 1) % n` is `i - 1`, so 0 gives -1 and not `n - 1` |
| `QuizModel.HasBeenAnswered` | app/src/main/java/com/bignerdranch/android/geoquiz/QuizActivity.java:190-198 | both answer buttons are enabled exactly when the current index is not in the history; nothing else changes |
| `QuizModel.AfterTextClick` | app/src/main/java/com/bignerdranch/android/geoquiz/QuizActivity.java:78 | the index becomes `i + 1`, wrapping from N-1 to 0; no button flag, history entry or count changes |
| `QuizModel.AfterNext` | app/src/main/java/com/bignerdranch/android/geoquiz/QuizActivity.java:128-142 | the index stays in [0, N-1]. From i < N-1 it moves to i+1, enables Prev and sets the answer buttons by whether i+1 was answered. From N-1 it stays at N-1 and disables Next. It shows the "unanswered questions" toast exactly when the history does not hold N entries. History and count are unchanged |
| `QuizModel.AfterPrev` | app/src/main/java/com/bignerdranch/android/geoquiz/QuizActivity.java:106-116 | the index stays in [0, N-1]. From i > 0 it moves to i-1, enables Next and sets the answer buttons by whether i-1 was answered. From 0 only Prev changes (disabled) and the "beginning" toast shows; it never wraps to N-1. History and count are unchanged |
| `QuizModel.Score` | app/src/main/java/com/bignerdranch/android/geoquiz/QuizActivity.java:203-207 | the percentage times N equals 100 times the correct count; it lies in [0, 100] for a count in [0, N]; N correct answers give exactly 100 |
| `QuizModel.AfterAnswer` | app/src/main/java/com/bignerdranch/android/geoquiz/QuizActivity.java:154-185 | the count rises by exactly 1 with the correct toast when the choice matches the current question's answer; otherwise it is unchanged and the incorrect toast shows. The current index is appended to the history, both answer buttons are disabled, and index and navigation flags are unchanged. A second toast, the score for the new count, shows exactly when the history reaches N entries |
| `QuizModel.Created` | app/src/main/java/com/bignerdranch/android/geoquiz/QuizActivity.java:51-68 | a new quiz has an empty history, a zero count and all buttons enabled, and satisfies `Guarded`. Its index is the bundle's "index" entry when there is one, and 0 without a bundle or without the key |
| `QuizModel.Saved` | app/src/main/java/com/bignerdranch/android/geoquiz/QuizActivity.java:238 | the bundle holds the current index under "index", keeps every other entry, and gains no key besides "index" |
| `QuizModel.RestoreAfterSave` | app/src/main/java/com/bignerdranch/android/geoquiz/QuizActivity.java:66-68 | recreating from a saved bundle restores the index only: history empty, count zero, all buttons enabled |
| `QuizRun.Deliver` | app/src/main/java/com/bignerdranch/android/geoquiz/QuizActivity.java:75-144 | a click on a disabled button changes nothing. Every handler keeps `ValidState`, keeps the old history as a prefix and never lowers the count. It shows at most one score toast, and only on the click that takes the history from N-1 to N entries |
| `QuizRun.Run` | app/src/main/java/com/bignerdranch/android/geoquiz/QuizActivity.java:75-144 | after any click sequence, text clicks included, the index is in [0, N-1]. The correct count never exceeds the history length, and the history only grows |
| `QuizRun.GuardKept` | app/src/main/java/com/bignerdranch/android/geoquiz/QuizActivity.java:106-144 | every click except on the question text keeps `Guarded`. Next and Prev reset the answer buttons by membership; an answer is delivered only while they are enabled, so only an unanswered index is recorded |
| `QuizRun.GuardKeptAlongRun` | app/src/main/java/com/bignerdranch/android/geoquiz/QuizActivity.java:187-198 | using only True, False, Prev and Next, `Guarded` holds after any number of clicks; in particular no index is recorded twice |
| `QuizRun.DistinctHistoryCoversBank` | app/src/main/java/com/bignerdranch/android/geoquiz/QuizActivity.java:182-184 | a history without repeats has at most N entries, and it contains every index of the bank exactly when it has N entries |
| `QuizRun.CompletedQuizIsFinal` | app/src/main/java/com/bignerdranch/android/geoquiz/QuizActivity.java:177-184 | under the guard, once the history holds N entries, no button click changes the history or the count or shows a score |
| `QuizRun.ScoreShownAtMostOnce` | app/src/main/java/com/bignerdranch/android/geoquiz/QuizActivity.java:182-184 | under the guard, any sequence of button clicks shows the score toast at most once, and never if the quiz was already complete |
| `QuizRun.ScoreMeansBankComplete` | app/src/main/java/com/bignerdranch/android/geoquiz/QuizActivity.java:180-184 | under the guard, when a click shows the score toast, every question of the bank is in the history; conversely, an enabled True or False click whose new history covers the bank shows the score toast |
| `QuizRun.TextClickAllowsRepeatAnswer` | app/src/main/java/com/bignerdranch/android/geoquiz/QuizActivity.java:75-81 | from a fresh quiz: True, Next, five question-text clicks, then True again. This records index 0 twice and counts it correct twice, so the text click defeats repeat-answer prevention |
| `QuizRun.TextClicksWrap` | app/src/main/java/com/bignerdranch/android/geoquiz/QuizActivity.java:75-81 | n question-text clicks that stay within the bank move the index forward by n, landing on 0 at the end, and change nothing else: the answer buttons keep their state |
| `QuizRun.CycleAnswersFirstAgain` | app/src/main/java/com/bignerdranch/android/geoquiz/QuizActivity.java:75-81 | from the first question answered m times, the clicks Next, five text clicks, True answer it an (m+1)-th time and count it correct again |
| `QuizRun.CyclesAnswerFirst` | app/src/main/java/com/bignerdranch/android/geoquiz/QuizActivity.java:75-81 | k such cycles raise the history and the correct count by k, every entry being the first question |
| `QuizRun.CorrectCountUnbounded` | app/src/main/java/com/bignerdranch/android/geoquiz/QuizActivity.java:75-81 | from a fresh quiz, True followed by k cycles counts 1 + k correct answers, all to the first question, with the second never answered; the count is not bounded by N |
| `QuizRun.FullScoreWithOneQuestion` | app/src/main/java/com/bignerdranch/android/geoquiz/QuizActivity.java:177-184 | answering the first question a sixth time shows the correct toast and a score of 100 percent, although no other question is in the history |
| `QuizRun.FourOfSixScore` | app/src/main/java/com/bignerdranch/android/geoquiz/QuizActivity.java:205 | four correct answers out of six score exactly 200/3 percent |
| `GeoQuiz.QuizActivity.constructor` | app/src/main/java/com/bignerdranch/android/geoquiz/QuizActivity.java:58-147 | `onCreate` leaves the state `Created` describes for the given bundle, with the question view showing the current question |
| `GeoQuiz.QuizActivity.UpdateQuestion` | app/src/main/java/com/bignerdranch/android/geoquiz/QuizActivity.java:149-152 | the question view shows the text of the question at the current index |
| `GeoQuiz.QuizActivity.ToggleTFButtons` | app/src/main/java/com/bignerdranch/android/geoquiz/QuizActivity.java:210-213 | both answer buttons take the given state |
| `GeoQuiz.QuizActivity.HasBeenAnswered` | app/src/main/java/com/bignerdranch/android/geoquiz/QuizActivity.java:190-198 | both answer buttons are enabled exactly when the current index is not in the history; nothing else changes |
| `GeoQuiz.QuizActivity.OnQuestionTextClick` | app/src/main/java/com/bignerdranch/android/geoquiz/QuizActivity.java:75-81 | the fields change exactly as `AfterTextClick` says, and the view shows the new question |
| `GeoQuiz.QuizActivity.OnPrevClick` | app/src/main/java/com/bignerdranch/android/geoquiz/QuizActivity.java:103-118 | the fields and the toasts shown are exactly those of `AfterPrev`; the intermediate -1 from Java's `%` is caught by the `< 0` branch |
| `GeoQuiz.QuizActivity.OnNextClick` | app/src/main/java/com/bignerdranch/android/geoquiz/QuizActivity.java:125-144 | the fields and the toasts shown are exactly those of `AfterNext` |
| `GeoQuiz.QuizActivity.CheckAnswer` | app/src/main/java/com/bignerdranch/android/geoquiz/QuizActivity.java:154-185 | the fields and the toasts shown are exactly those of `AfterAnswer`; the method has no guard of its own |
| `GeoQuiz.QuizActivity.ScoreQuiz` | app/src/main/java/com/bignerdranch/android/geoquiz/QuizActivity.java:203-207 | the score toast's percentage times N equals 100 times the correct count |
| `GeoQuiz.QuizActivity.OnSaveInstanceState` | app/src/main/java/com/bignerdranch/android/geoquiz/QuizActivity.java:235-239 | the returned bundle is `Saved` of the current state; recreating from it gives back the current index |

## Left out

- Android lifecycle callbacks (`onStart`, `onResume`, `onPause`, `onStop`,
  `onDestroy`) and every `Log` call: they only log.
- View wiring (`setContentView`, `findViewById`, `setOnClickListener`): the click
  listeners are the handler methods. `setText` is modelled only as the
  `questionText` field, the resource shown.
- Toast rendering (gravity, offsets, duration, string lookup): a toast is a
  `Notice` value in the list a handler returns.
- Float arithmetic and the `"%.2f%%"` formatting in `scoreQuiz`: the score is an
  exact rational, e.g. 200/3 where the app would display 66.67%.
- The `Question` class is not part of this model. It is modelled as a datatype
  with the two accessors used. The `R.string` question ids are an enumeration,
  since their generated integer values are unknown.
- The layout XML is not part of this model. All four buttons are taken to start
  enabled, the Android default.
- `Bundle` is a map from keys to integers. `putInt` on the caller's bundle
  becomes a returned updated map. The view state saved by
  `super.onSaveInstanceState` is not modelled.
- GeoQuiz.QuizActivity.constructor: requires the restored "index", if present,
  to lie in [0, N-1]. With any other value `updateQuestion` would index outside
  the bank and throw. Bundles written by `onSaveInstanceState` always satisfy
  this.
- Java's 32-bit `int` overflow is not modelled. The index stays in [0, N-1]; the
  correct count and the history length are bounded only by the number of clicks
  (`QuizRun.CorrectCountUnbounded`), far below 2^31 in any real session.
- Delivering clicks is the platform's job: a disabled view gets no clicks. It is
  modelled in `QuizRun.Deliver`, not in the activity.
- The model follows the code as written:
  - the history is a list that can hold duplicates, not a set;
  - `checkAnswer` has no guard of its own;
  - Next clamps at the last question and never lands on index 0;
  - the score fires on the history's length, not on coverage of the bank.
