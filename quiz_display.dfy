/** The self-contained quiz attempt: its own selections, results flag and end
    time, the per-option feedback, and the single check/retake button. */
module QuizDisplay {
  import opened Wrappers
  import opened Grading

  /** The feedback style of an option row. */
  datatype Highlight = Plain | CorrectStyle | WrongStyle

  /** The icon at the end of an option row. */
  datatype Icon = CheckIcon | CrossIcon

  /** `getOptionClass` for an option, given whether results are shown and the
      question's selection. */
  function OptionHighlight(showResults: bool, selected: Option<string>, option: string, correct: string): (h: Highlight)
    ensures h == CorrectStyle <==> showResults && option == correct
    ensures h == WrongStyle <==> showResults && selected == Some(option) && option != correct
  {
    if !showResults then Plain
    else if option == correct then CorrectStyle
    else if selected == Some(option) && option != correct then WrongStyle
    else Plain
  }

  /** `getIcon` for an option. */
  function OptionIcon(showResults: bool, selected: Option<string>, option: string, correct: string): (r: Option<Icon>)
    ensures r == Some(CheckIcon) <==> showResults && option == correct
    ensures r == Some(CrossIcon) <==> showResults && selected == Some(option) && option != correct
  {
    if !showResults then None
    else if option == correct then Some(CheckIcon)
    else if selected == Some(option) && option != correct then Some(CrossIcon)
    else None
  }

  /** The icon agrees with the row style: a check on every correct row, a
      cross on every wrong row, no icon on a plain row. */
  lemma IconAgreesWithHighlight(showResults: bool, selected: Option<string>, option: string, correct: string)
    ensures OptionIcon(showResults, selected, option, correct) == Some(CheckIcon)
        <==> OptionHighlight(showResults, selected, option, correct) == CorrectStyle
    ensures OptionIcon(showResults, selected, option, correct) == Some(CrossIcon)
        <==> OptionHighlight(showResults, selected, option, correct) == WrongStyle
    ensures OptionIcon(showResults, selected, option, correct) == None
        <==> OptionHighlight(showResults, selected, option, correct) == Plain
  {
  }

  /** Feedback over all options of one question: nothing is marked while results
      are hidden; once shown, exactly the options equal to the correct answer
      are marked correct whatever was selected, and a row is marked wrong exactly
      when it is the selected option and that selection is not correct. */
  lemma QuestionFeedback(showResults: bool, selected: Option<string>, q: Question)
    ensures !showResults ==> forall j :: 0 <= j < |q.options| ==>
              OptionHighlight(showResults, selected, q.options[j], q.correctAnswer) == Plain
    ensures showResults ==> forall j :: 0 <= j < |q.options| ==>
              (OptionHighlight(showResults, selected, q.options[j], q.correctAnswer) == CorrectStyle
               <==> q.options[j] == q.correctAnswer)
    ensures showResults ==> forall j :: 0 <= j < |q.options| ==>
              (OptionHighlight(showResults, selected, q.options[j], q.correctAnswer) == WrongStyle
               <==> selected == Some(q.options[j]) && q.options[j] != q.correctAnswer)
    ensures selected == Some(q.correctAnswer) ==> forall j :: 0 <= j < |q.options| ==>
              OptionHighlight(showResults, selected, q.options[j], q.correctAnswer) != WrongStyle
  {
  }

  /** The key set of a selection map whose keys are question indices. */
  predicate KeysInRange(ans: Answers, n: nat)
  {
    forall k :: k in ans ==> 0 <= k < n
  }

  /** The question indices 0 .. n-1. */
  function IndexRange(n: nat): (r: set<int>)
    ensures |r| == n
    ensures forall i :: i in r <==> 0 <= i < n
  {
    if n == 0 then {} else IndexRange(n - 1) + {n - 1}
  }

  /** With keys that are question indices, "as many answered keys as
      questions" means every question has a selection, and conversely. */
  lemma AllAnsweredIff(ans: Answers, n: nat)
    requires KeysInRange(ans, n)
    ensures |ans.Keys| == n <==> forall i :: 0 <= i < n ==> i in ans
  {
    var range := IndexRange(n);
    assert ans.Keys <= range;
    assert |range| == |ans.Keys| + |range - ans.Keys|;
    if |ans.Keys| == n {
      assert range - ans.Keys == {};
      forall i | 0 <= i < n ensures i in ans {
        assert i in range;
      }
    }
  }

  /** One attempt at a quiz. */
  class QuizAttempt {
    const quiz: Quiz
    const startTime: int
    var selectedAnswers: Answers
    var showResults: bool
    var endTime: Option<int>

    /** Results are shown exactly when an end time is recorded, and every
        selection belongs to a question of the quiz. */
    predicate Valid()
      reads this
    {
      && (showResults <==> endTime.Some?)
      && KeysInRange(selectedAnswers, |quiz.questions|)
    }

    constructor (quiz: Quiz, startTime: int)
      ensures Valid()
      ensures this.quiz == quiz && this.startTime == startTime
      ensures selectedAnswers == map[] && !showResults && endTime == None
    {
      this.quiz := quiz;
      this.startTime := startTime;
      selectedAnswers := map[];
      showResults := false;
      endTime := None;
    }

    /** `handleAnswerChange`: question `i` now has selection `answer`; every
        other entry stays as it was. */
    method AnswerChange(i: int, answer: string)
      requires Valid() && 0 <= i < |quiz.questions|
      modifies this
      ensures Valid()
      ensures selectedAnswers == old(selectedAnswers)[i := answer]
      ensures showResults == old(showResults) && endTime == old(endTime)
    {
      selectedAnswers := selectedAnswers[i := answer];
    }

    /** Choosing an option of question `i` in its radio group, which is disabled
        while results are shown. */
    method ChooseOption(i: int, answer: string) returns (changed: bool)
      requires Valid() && 0 <= i < |quiz.questions|
      modifies this
      ensures Valid()
      ensures changed == !old(showResults)
      ensures selectedAnswers == if changed then old(selectedAnswers)[i := answer] else old(selectedAnswers)
      ensures showResults == old(showResults) && endTime == old(endTime)
    {
      changed := !showResults;
      if changed {
        AnswerChange(i, answer);
      }
    }

    /** `handleCheckAnswers`: the end time is taken; the selections stay. */
    method CheckAnswers(now: int)
      requires Valid()
      modifies this
      ensures Valid()
      ensures showResults && endTime == Some(now)
      ensures selectedAnswers == old(selectedAnswers)
    {
      endTime := Some(now);
      showResults := true;
    }

    /** `handleRetakeQuiz`. */
    method RetakeQuiz()
      requires Valid()
      modifies this
      ensures Valid()
      ensures selectedAnswers == map[] && !showResults && endTime == None
    {
      selectedAnswers := map[];
      showResults := false;
      endTime := None;
    }

    /** `allQuestionsAnswered`: as many selection keys as questions. */
    predicate AllQuestionsAnswered(): (b: bool)
      reads this
      ensures Valid() ==> (b <==> forall i :: 0 <= i < |quiz.questions| ==> i in selectedAnswers)
    {
      var b := |selectedAnswers.Keys| == |quiz.questions|;
      assert Valid() ==> (b <==> forall i :: 0 <= i < |quiz.questions| ==> i in selectedAnswers) by {
        if Valid() {
          AllAnsweredIff(selectedAnswers, |quiz.questions|);
        }
      }
      b
    }

    /** The single button: retake while results are shown; otherwise check,
        which is enabled only once every question is answered. */
    method PressButton(now: int) returns (acted: bool)
      requires Valid()
      modifies this
      ensures Valid()
      ensures acted == (old(showResults) || old(AllQuestionsAnswered()))
      ensures old(showResults) ==> selectedAnswers == map[] && !showResults && endTime == None
      ensures !old(showResults) && acted ==>
                showResults && endTime == Some(now) && selectedAnswers == old(selectedAnswers)
                && forall i :: 0 <= i < |quiz.questions| ==> i in selectedAnswers
      ensures !acted ==> unchanged(this)
    {
      if showResults {
        RetakeQuiz();
        acted := true;
      } else if AllQuestionsAnswered() {
        AllAnsweredIff(selectedAnswers, |quiz.questions|);
        CheckAnswers(now);
        acted := true;
      } else {
        acted := false;
      }
    }

    /** `getOptionClass` for option `option` of question `i`. */
    function OptionClass(i: int, option: string, correct: string): (h: Highlight)
      reads this
      ensures h == CorrectStyle <==> showResults && option == correct
      ensures h == WrongStyle <==>
                showResults && i in selectedAnswers && selectedAnswers[i] == option && option != correct
    {
      OptionHighlight(showResults, Lookup(selectedAnswers, i), option, correct)
    }

    /** `getIcon` for option `option` of question `i`. */
    function OptionIconAt(i: int, option: string, correct: string): (r: Option<Icon>)
      reads this
      ensures r == Some(CheckIcon) <==> showResults && option == correct
      ensures r == Some(CrossIcon) <==>
                showResults && i in selectedAnswers && selectedAnswers[i] == option && option != correct
    {
      OptionIcon(showResults, Lookup(selectedAnswers, i), option, correct)
    }

    /** The number of correct selections, 0 while results are hidden. */
    function Score(): (r: nat)
      reads this
      ensures !showResults ==> r == 0
      ensures r <= |quiz.questions|
      ensures showResults ==> r == |CorrectSet(quiz.questions, selectedAnswers, |quiz.questions|)|
    {
      if !showResults then 0
      else
        CountIsCorrectSetSize(quiz.questions, selectedAnswers);
        CountCorrect(quiz.questions, selectedAnswers)
    }

    /** The "time taken" text; it reads back as the whole seconds since the
        start time, or 0 while the end time is missing or 0. */
    function TimeTaken(): (r: string)
      reads this
      ensures r == FormatSeconds(if Truthy(endTime) then ElapsedSeconds(startTime, endTime.value) else 0)
      ensures ParseDuration(r)
           == Some(if Truthy(endTime) then ElapsedSeconds(startTime, endTime.value) else 0)
    {
      if !Truthy(endTime) then
        FormatSecondsExamples();
        FormatSecondsRoundTrip(0);
        "0s"
      else
        var s := ElapsedSeconds(startTime, endTime.value);
        FormatSecondsRoundTrip(s);
        FormatSeconds(s)
    }
  }
}
