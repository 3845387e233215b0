/** Sequences of clicks on the quiz screen, and what they can and cannot lead to.
    A click on a disabled button is never delivered to its handler; the question
    text is always clickable. */
module QuizRun {
  import opened QuizModel

  /** The five views the user can click. */
  datatype Click = QuestionTextClick | TrueClick | FalseClick | PrevClick | NextClick

  predicate Enabled(s: QuizState, c: Click) {
    match c
    case QuestionTextClick => true
    case TrueClick => s.trueEnabled
    case FalseClick => s.falseEnabled
    case PrevClick => s.prevEnabled
    case NextClick => s.nextEnabled
  }

  /** The number of score toasts among some toasts. */
  function ScoreCount(shown: seq<Notice>): (n: nat) {
    if shown == [] then 0
    else (if shown[|shown| - 1].QuizScore? then 1 else 0) + ScoreCount(shown[..|shown| - 1])
  }

  lemma {:induction false} ScoreCountAppend(a: seq<Notice>, b: seq<Notice>)
    ensures ScoreCount(a + b) == ScoreCount(a) + ScoreCount(b)
    decreases |b|
  {
    if b == [] {
      assert a + b == a;
    } else {
      var c := b[..|b| - 1];
      assert (a + b)[..|a + b| - 1] == a + c;
      ScoreCountAppend(a, c);
    }
  }

  /** One click, handed to its handler only when its view is enabled. Every
      handler keeps the state valid, never forgets an answer, never lowers the
      correct count, and shows the score at most once, on the click that brings
      the history to N entries. */
  function Deliver(s: QuizState, c: Click): (o: Outcome)
    requires ValidState(s)
    ensures ValidState(o.state)
    ensures !Enabled(s, c) ==> o == Outcome(s, [])
    ensures s.history <= o.state.history && s.correct <= o.state.correct
    ensures ScoreCount(o.shown) <= 1
    ensures ScoreCount(o.shown) == 1 ==> |s.history| + 1 == |o.state.history| == N
  {
    if !Enabled(s, c) then Outcome(s, [])
    else
      var o := match c
        case QuestionTextClick => Outcome(AfterTextClick(s), [])
        case TrueClick => AfterAnswer(s, true)
        case FalseClick => AfterAnswer(s, false)
        case PrevClick => AfterPrev(s)
        case NextClick => AfterNext(s);
      assert o.shown == [] || o.shown == [o.shown[0]] || o.shown == [o.shown[0], o.shown[1]];
      o
  }

  /** A sequence of clicks, with every toast shown along the way. Whatever the
      clicks, text clicks included, the index stays on a question of the bank,
      the correct count never exceeds the number of answers, and the history only
      grows. */
  function Run(s: QuizState, clicks: seq<Click>): (o: Outcome)
    requires ValidState(s)
    ensures ValidState(o.state)
    ensures 0 <= o.state.index < N
    ensures o.state.correct <= |o.state.history|
    ensures s.history <= o.state.history && s.correct <= o.state.correct
    decreases |clicks|
  {
    if clicks == [] then Outcome(s, [])
    else
      var first := Deliver(s, clicks[0]);
      var rest := Run(first.state, clicks[1..]);
      Outcome(rest.state, first.shown + rest.shown)
  }

  /** Every click except on the question text keeps the repeat-answer guard. */
  lemma GuardKept(s: QuizState, c: Click)
    requires Guarded(s)
    requires c != QuestionTextClick
    ensures Guarded(Deliver(s, c).state)
  {
  }

  /** Using only the True, False, Prev and Next buttons, the guard holds after any
      number of clicks: in particular no question is ever answered twice. */
  lemma {:induction false} GuardKeptAlongRun(s: QuizState, clicks: seq<Click>)
    requires Guarded(s)
    requires QuestionTextClick !in clicks
    ensures Guarded(Run(s, clicks).state)
    ensures NoDuplicates(Run(s, clicks).state.history)
    decreases |clicks|
  {
    if clicks != [] {
      GuardKept(s, clicks[0]);
      assert QuestionTextClick !in clicks[1..] by {
        forall k | 0 <= k < |clicks[1..]| ensures clicks[1..][k] != QuestionTextClick {
          assert clicks[1..][k] == clicks[k + 1];
        }
      }
      GuardKeptAlongRun(Deliver(s, clicks[0]).state, clicks[1..]);
    }
  }

  /** The elements of a sequence, as a set. */
  function Elements(h: seq<int>): (e: set<int>) {
    set x | x in h
  }

  lemma {:induction false} DistinctElementsCount(h: seq<int>)
    requires NoDuplicates(h)
    ensures |Elements(h)| == |h|
    decreases |h|
  {
    if h != [] {
      var init := h[..|h| - 1];
      assert NoDuplicates(init);
      DistinctElementsCount(init);
      assert h == init + [h[|h| - 1]];
      assert Elements(h) == Elements(init) + {h[|h| - 1]};
      assert h[|h| - 1] !in Elements(init) by {
        forall j | 0 <= j < |init| ensures init[j] != h[|h| - 1] {
          assert init[j] == h[j];
        }
      }
    }
  }

  /** The indices of the bank below n, as a set. */
  function IndicesBelow(n: nat): (r: set<int>) {
    if n == 0 then {} else IndicesBelow(n - 1) + {n - 1}
  }

  lemma {:induction false} IndicesBelowCount(n: nat)
    ensures forall i :: i in IndicesBelow(n) <==> 0 <= i < n
    ensures |IndicesBelow(n)| == n
  {
    if n > 0 {
      IndicesBelowCount(n - 1);
    }
  }

  /** A history without repeats holds at most N answers, and it covers every
      question of the bank exactly when it holds N answers. */
  lemma DistinctHistoryCoversBank(h: seq<int>)
    requires NoDuplicates(h)
    requires forall k :: 0 <= k < |h| ==> 0 <= h[k] < N
    ensures |h| <= N
    ensures |h| == N <==> forall i :: 0 <= i < N ==> i in h
  {
    var e, r := Elements(h), IndicesBelow(N);
    DistinctElementsCount(h);
    IndicesBelowCount(N);
    assert e <= r;
    assert |r - e| == |r| - |e|;
    if |h| == N {
      assert r - e == {};
      forall i | 0 <= i < N ensures i in h {
        assert i in r;
      }
    }
    if forall i :: 0 <= i < N ==> i in h {
      assert r <= e;
    }
  }

  /** Under the guard, once every question has been answered no click on a button
      changes the history or the correct count, and none shows the score again. */
  lemma CompletedQuizIsFinal(s: QuizState, c: Click)
    requires Guarded(s)
    requires |s.history| == N
    requires c != QuestionTextClick
    ensures Deliver(s, c).state.history == s.history
    ensures Deliver(s, c).state.correct == s.correct
    ensures ScoreCount(Deliver(s, c).shown) == 0
  {
    DistinctHistoryCoversBank(s.history);
    assert s.index in s.history;
  }

  /** Under the guard, the score toast appears at most once in any sequence of
      button clicks, and never when every question had already been answered. */
  lemma {:induction false} ScoreShownAtMostOnce(s: QuizState, clicks: seq<Click>)
    requires Guarded(s)
    requires QuestionTextClick !in clicks
    ensures ScoreCount(Run(s, clicks).shown) <= if |s.history| == N then 0 else 1
    decreases |clicks|
  {
    if clicks != [] {
      var first := Deliver(s, clicks[0]);
      var rest := Run(first.state, clicks[1..]);
      GuardKept(s, clicks[0]);
      assert QuestionTextClick !in clicks[1..] by {
        forall k | 0 <= k < |clicks[1..]| ensures clicks[1..][k] != QuestionTextClick {
          assert clicks[1..][k] == clicks[k + 1];
        }
      }
      ScoreShownAtMostOnce(first.state, clicks[1..]);
      ScoreCountAppend(first.shown, rest.shown);
      if |s.history| == N {
        CompletedQuizIsFinal(s, clicks[0]);
      }
    }
  }

  /** Under the guard, the score toast is shown only when every question has been
      answered; and an answer click that completes the bank does show it. */
  lemma ScoreMeansBankComplete(s: QuizState, c: Click)
    requires Guarded(s)
    ensures ScoreCount(Deliver(s, c).shown) == 1 ==>
      forall i :: 0 <= i < N ==> i in Deliver(s, c).state.history
    ensures && (c == TrueClick || c == FalseClick)
            && Enabled(s, c)
            && (forall i :: 0 <= i < N ==> i in Deliver(s, c).state.history)
            ==> ScoreCount(Deliver(s, c).shown) == 1
  {
    var o := Deliver(s, c);
    if c != QuestionTextClick {
      GuardKept(s, c);
      DistinctHistoryCoversBank(o.state.history);
    }
    if (c == TrueClick || c == FalseClick) && Enabled(s, c) &&
       (forall i :: 0 <= i < N ==> i in o.state.history) {
      assert |o.state.history| == N;
      assert o.shown == [o.shown[0], o.shown[1]];
      assert !o.shown[0].QuizScore? && o.shown[1].QuizScore?;
      assert ScoreCount([o.shown[0]]) == 0;
    }
  }

  /** Running a click and then some more is delivering the click and running the
      rest from where it left the quiz. */
  lemma RunCons(s: QuizState, c: Click, rest: seq<Click>)
    requires ValidState(s)
    ensures var first := Deliver(s, c);
      var o := Run(first.state, rest);
      Run(s, [c] + rest) == Outcome(o.state, first.shown + o.shown)
  {
  }

  /** From the second question, with the answer buttons enabled and only the first
      question answered (right), clicking the question text five times wraps round
      to the first question with the buttons still enabled; answering it again
      records it a second time. */
  lemma WrapAndAnswerAgain(s: QuizState)
    requires s == QuizState(1, [0], 1, true, true, true, true)
    ensures var t := QuestionTextClick;
      var o := Run(s, [t, t, t, t, t, TrueClick]);
      o.state.history == [0, 0] && o.state.correct == 2
  {
    var t := QuestionTextClick;
    var s3 := Deliver(s, t).state;
    assert s3 == s.(index := 2);
    var s4 := Deliver(s3, t).state;
    assert s4 == s.(index := 3);
    var s5 := Deliver(s4, t).state;
    assert s5 == s.(index := 4);
    var s6 := Deliver(s5, t).state;
    assert s6 == s.(index := 5);
    var s7 := Deliver(s6, t).state;
    assert s7 == s.(index := 0);
    var s8 := Deliver(s7, TrueClick).state;
    assert s8.history == [0, 0] && s8.correct == 2;
    assert Run(s8, []).state == s8;
    RunCons(s7, TrueClick, []);
    RunCons(s6, t, [TrueClick]);
    RunCons(s5, t, [t, TrueClick]);
    RunCons(s4, t, [t, t, TrueClick]);
    RunCons(s3, t, [t, t, t, TrueClick]);
    RunCons(s, t, [t, t, t, t, TrueClick]);
  }

  /** Clicking the question text moves the index without touching the answer
      buttons, so a question can be answered again: answer the first question,
      go Next (answer buttons re-enabled on an unanswered question), then click the
      text five times to wrap round to the first question and answer it again. */
  lemma TextClickAllowsRepeatAnswer(s0: QuizState)
    requires s0 == Created(None)
    ensures var t := QuestionTextClick;
      var o := Run(s0, [TrueClick, NextClick, t, t, t, t, t, TrueClick]);
      o.state.history == [0, 0] && o.state.correct == 2 && !NoDuplicates(o.state.history)
  {
    var t := QuestionTextClick;
    var tail := [t, t, t, t, t, TrueClick];
    var s1 := Deliver(s0, TrueClick).state;
    assert s1 == QuizState(0, [0], 1, false, false, true, true);
    var s2 := Deliver(s1, NextClick).state;
    assert s2 == QuizState(1, [0], 1, true, true, true, true);
    WrapAndAnswerAgain(s2);
    RunCons(s1, NextClick, tail);
    RunCons(s0, TrueClick, [NextClick] + tail);
    assert [TrueClick] + ([NextClick] + tail) == [TrueClick, NextClick, t, t, t, t, t, TrueClick];
    var h := Run(s2, tail).state.history;
    assert h[0] == h[1];
  }

  /** m answers, all to the first question. */
  function Zeros(m: nat): (z: seq<int>)
    ensures |z| == m && forall k :: 0 <= k < m ==> z[k] == 0
  {
    if m == 0 then [] else Zeros(m - 1) + [0]
  }

  /** On the first question, answered (right) m times, answer buttons disabled. */
  function Repeated(m: nat): (s: QuizState)
    requires m >= 1
    ensures ValidState(s) && s.index == 0 && |s.history| == m && s.correct == m
  {
    QuizState(0, Zeros(m), m, false, false, true, true)
  }

  /** n clicks on the question text. */
  function TextClicks(n: nat): (cs: seq<Click>)
    ensures |cs| == n && forall k :: 0 <= k < n ==> cs[k] == QuestionTextClick
  {
    if n == 0 then [] else [QuestionTextClick] + TextClicks(n - 1)
  }

  lemma TextClicksCons(n: nat, rest: seq<Click>)
    requires n > 0
    ensures TextClicks(n) + rest == [QuestionTextClick] + (TextClicks(n - 1) + rest)
  {
    assert TextClicks(n) == [QuestionTextClick] + TextClicks(n - 1);
  }

  /** n question-text clicks that do not go past the end of the bank advance the
      index by n, landing on the first question when they reach the end, and change
      nothing else. */
  lemma {:induction false} TextClicksWrap(s: QuizState, n: nat, rest: seq<Click>, t: QuizState)
    requires ValidState(s)
    requires s.index + n <= N
    requires t == s.(index := if s.index + n == N then 0 else s.index + n)
    ensures Run(s, TextClicks(n) + rest).state == Run(t, rest).state
    decreases n
  {
    if n == 0 {
      assert TextClicks(n) + rest == rest;
    } else {
      var x := TextClicks(n - 1) + rest;
      var s1 := AfterTextClick(s);
      TextClicksCons(n, rest);
      RunCons(s, QuestionTextClick, x);
      TextClicksWrap(s1, n - 1, rest, t);
    }
  }

  /** Next, five question-text clicks, True: back on the first question, answering it again. */
  function Cycle(): (cs: seq<Click>)
    ensures |cs| == N + 1 && cs[0] == NextClick && cs[N] == TrueClick
  {
    [NextClick] + TextClicks(N - 1) + [TrueClick]
  }

  /** k cycles one after another. */
  function Cycles(k: nat): (cs: seq<Click>)
    ensures |cs| == k * (N + 1)
  {
    if k == 0 then [] else Cycle() + Cycles(k - 1)
  }

  /** One cycle answers the first question once more and counts it correct again,
      while the second question stays unanswered. */
  lemma CycleAnswersFirstAgain(m: nat, rest: seq<Click>)
    requires m >= 1
    ensures Run(Repeated(m), Cycle() + rest).state == Run(Repeated(m + 1), rest).state
  {
    var s := Repeated(m);
    var s1 := Deliver(s, NextClick).state;
    assert 1 !in s.history;
    assert s1 == QuizState(1, Zeros(m), m, true, true, true, true);
    var s6 := s1.(index := 0);
    assert Deliver(s6, TrueClick).state == Repeated(m + 1);
    assert Cycle() + rest == [NextClick] + (TextClicks(N - 1) + ([TrueClick] + rest));
    RunCons(s, NextClick, TextClicks(N - 1) + ([TrueClick] + rest));
    TextClicksWrap(s1, N - 1, [TrueClick] + rest, s6);
    RunCons(s6, TrueClick, rest);
  }

  /** After k cycles the first question has been answered k more times. */
  lemma {:induction false} CyclesAnswerFirst(m: nat, k: nat)
    requires m >= 1
    ensures Run(Repeated(m), Cycles(k)).state == Repeated(m + k)
    decreases k
  {
    if k > 0 {
      CycleAnswersFirstAgain(m, Cycles(k - 1));
      CyclesAnswerFirst(m + 1, k - 1);
    }
  }

  /** With question-text clicks, the correct count is not bounded by the number of
      questions: from a fresh quiz, True followed by k cycles counts 1 + k correct
      answers, every one of them to the first question. */
  lemma CorrectCountUnbounded(s0: QuizState, k: nat)
    requires s0 == Created(None)
    ensures var o := Run(s0, [TrueClick] + Cycles(k)).state;
      o.correct == 1 + k && o.history == Zeros(1 + k) && 1 !in o.history
  {
    var s1 := Deliver(s0, TrueClick).state;
    assert s1 == Repeated(1);
    RunCons(s0, TrueClick, Cycles(k));
    CyclesAnswerFirst(1, k);
  }

  /** The score toast fires on the history's length, not on which questions were
      answered: answering the first question a sixth time shows a score of 100
      percent although no other question was ever answered. */
  lemma FullScoreWithOneQuestion(s: QuizState)
    requires s == QuizState(0, Zeros(N - 1), N - 1, true, true, true, true)
    ensures Deliver(s, TrueClick).shown == [CorrectToast, QuizScore(100.0)]
    ensures forall i :: 0 < i < N ==> i !in Deliver(s, TrueClick).state.history
  {
    assert Deliver(s, TrueClick).state.history == Zeros(N);
  }

  /** Four correct answers out of six score 200/3 percent (66.67% once rounded). */
  lemma FourOfSixScore()
    ensures Score(4) == 200.0 / 3.0
  {
  }
}
