/** The quiz tab: the generation form, the session state its handlers
    update, and the text copied to the clipboard. */
module QuizGenerator {
  import opened Wrappers
  import opened Strings
  import opened Decimal
  import opened Grading

  const MinTextLength := 100
  const MinQuestions := 5
  const MaxQuestions := 40
  /** The slider's initial position. */
  const DefaultQuestionCount := 15

  /** The form schema: at least 100 characters of text and between 5 and 40
      questions. */
  predicate ValidQuizForm(text: string, numberOfQuestions: int)
  {
    |text| >= MinTextLength && MinQuestions <= numberOfQuestions <= MaxQuestions
  }

  /** The option lines of one question block. */
  function OptionLines(options: seq<string>): (r: seq<string>)
    ensures |r| == |options|
    ensures forall j :: 0 <= j < |r| ==> r[j] == "   - " + options[j]
  {
    seq(|options|, j requires 0 <= j < |options| => "   - " + options[j])
  }

  /** The clipboard block of question `i` (numbered from 1). */
  function QuestionBlock(i: nat, q: Question): (r: string)
    ensures NatToString(i + 1) + ". " + q.question + "\n" <= r
    ensures var tail := "\nCorrect Answer: " + q.correctAnswer + "\n";
              |tail| <= |r| && r[|r| - |tail|..] == tail
    ensures var head := NatToString(i + 1) + ". " + q.question + "\n";
            var tail := "\nCorrect Answer: " + q.correctAnswer + "\n";
            |head| + |tail| <= |r| && r[|head|..|r| - |tail|] == Join(OptionLines(q.options), "\n")
  {
    NatToString(i + 1) + ". " + q.question + "\n" + Join(OptionLines(q.options), "\n")
      + "\nCorrect Answer: " + q.correctAnswer + "\n"
  }

  function Blocks(qs: seq<Question>): (r: seq<string>)
    ensures |r| == |qs|
    ensures forall i :: 0 <= i < |r| ==> r[i] == QuestionBlock(i, qs[i])
  {
    seq(|qs|, i requires 0 <= i < |qs| => QuestionBlock(i, qs[i]))
  }

  /** The text handed to the copy button: the blocks joined by a newline,
      or "" when there is no quiz. */
  function ClipboardText(quiz: Option<Quiz>): (r: string)
    ensures r == "" <==> quiz.None? || |quiz.value.questions| == 0
    ensures quiz.Some? && |quiz.value.questions| >= 1 ==> QuestionBlock(0, quiz.value.questions[0]) <= r
  {
    match quiz
    case None => ""
    case Some(z) => Join(Blocks(z.questions), "\n")
  }

  lemma JoinAppend(xs: seq<string>, y: string, sep: string)
    requires |xs| >= 1
    ensures Join(xs + [y], sep) == Join(xs, sep) + sep + y
  {
    var zs := xs + [y];
    JoinAt(zs, |xs|, sep);
    assert zs[..|xs|] == xs;
    assert zs[|xs|..] == [y];
  }

  /** Blocks appear in question order: one more question appends a newline and
      its block, numbered by its position. */
  lemma ClipboardAppend(qs: seq<Question>, q: Question)
    requires |qs| >= 1
    ensures ClipboardText(Some(Quiz(qs + [q])))
         == ClipboardText(Some(Quiz(qs))) + "\n" + QuestionBlock(|qs|, q)
  {
    assert Blocks(qs + [q]) == Blocks(qs) + [QuestionBlock(|qs|, q)];
    JoinAppend(Blocks(qs), QuestionBlock(|qs|, q), "\n");
  }

  /** Question `k`'s block sits between the blocks before it and those after it. */
  lemma ClipboardBlockAt(qs: seq<Question>, k: nat)
    requires k < |qs|
    ensures ClipboardText(Some(Quiz(qs)))
         == (if k == 0 then "" else Join(Blocks(qs)[..k], "\n") + "\n")
            + QuestionBlock(k, qs[k])
            + (if k + 1 == |qs| then "" else "\n" + Join(Blocks(qs)[k + 1..], "\n"))
  {
    JoinAround(Blocks(qs), k, "\n");
  }

  /** When no option contains a line break, splitting a block's option part into
      lines gives back one line per option, in order. */
  lemma OptionLinesRecoverable(options: seq<string>)
    requires |options| >= 1
    requires forall j :: 0 <= j < |options| ==> '\n' !in options[j]
    ensures Split(Join(OptionLines(options), "\n"), "\n") == OptionLines(options)
  {
    var ls := OptionLines(options);
    forall j | 0 <= j < |ls| ensures '\n' !in ls[j] {
      assert ls[j] == "   - " + options[j];
    }
    SplitJoinChar(ls, '\n');
  }

  /** How the generation call settles: it resolves with its output, which the
      flow's non-null assertion does not check and so may be null, or it
      rejects. */
  datatype Generation = Resolved(output: Option<Quiz>) | Rejected

  /** The quiz generator's state. */
  class QuizSession {
    var quizData: Option<Quiz>
    var isLoading: bool
    var startTime: Option<int>
    var endTime: Option<int>
    var showResults: bool
    var selectedAnswers: Answers

    /** Results are shown exactly when an end time is recorded; a quiz is held
        only with a start time (a null output leaves a start time without a
        quiz); nothing is held while loading. */
    predicate Valid()
      reads this
    {
      && (showResults <==> endTime.Some?)
      && (quizData.Some? ==> startTime.Some?)
      && (isLoading ==> quizData.None? && startTime.None?)
    }

    constructor ()
      ensures Valid()
      ensures quizData == None && !isLoading && startTime == None && endTime == None
      ensures !showResults && selectedAnswers == map[]
    {
      quizData := None;
      isLoading := false;
      startTime := None;
      endTime := None;
      showResults := false;
      selectedAnswers := map[];
    }

    /** The part of `onSubmit` before the generation call. */
    method BeginSubmit()
      modifies this
      ensures Valid()
      ensures isLoading && quizData == None && !showResults && selectedAnswers == map[]
      ensures startTime == None && endTime == None
    {
      isLoading := true;
      quizData := None;
      showResults := false;
      selectedAnswers := map[];
      startTime := None;
      endTime := None;
    }

    /** The part of `onSubmit` after the generation call settles with
        `result`; `now` is the clock. A resolved call stores its output, even a
        null one, and takes the start time; a rejected one changes nothing
        but the loading flag. */
    method FinishSubmit(result: Generation, now: int)
      requires Valid() && isLoading
      modifies this
      ensures Valid()
      ensures !isLoading
      ensures result.Resolved? ==> quizData == result.output && startTime == Some(now)
      ensures result.Rejected? ==> quizData == None && startTime == None
      ensures showResults == old(showResults) && endTime == old(endTime)
      ensures selectedAnswers == old(selectedAnswers)
    {
      if result.Resolved? {
        quizData := result.output;
        startTime := Some(now);
      }
      isLoading := false;
    }

    /** Submitting the form: rejected without any change when the form is
        invalid; otherwise reset, generate, and record the outcome. */
    method Submit(text: string, numberOfQuestions: int, result: Generation, now: int)
      returns (accepted: bool)
      requires Valid()
      modifies this
      ensures Valid()
      ensures accepted == ValidQuizForm(text, numberOfQuestions)
      ensures !accepted ==> unchanged(this)
      ensures accepted ==> !isLoading && !showResults && endTime == None && selectedAnswers == map[]
      ensures accepted && result.Resolved? ==> quizData == result.output && startTime == Some(now)
      ensures accepted && result.Rejected? ==> quizData == None && startTime == None
    {
      accepted := ValidQuizForm(text, numberOfQuestions);
      if accepted {
        BeginSubmit();
        FinishSubmit(result, now);
      }
    }

    /** Grading: the child's selections replace the stored ones and the end
        time is taken. */
    method CheckAnswers(answers: Answers, now: int)
      requires Valid()
      modifies this
      ensures Valid()
      ensures selectedAnswers == answers && endTime == Some(now) && showResults
      ensures quizData == old(quizData) && startTime == old(startTime)
      ensures isLoading == old(isLoading)
    {
      selectedAnswers := answers;
      endTime := Some(now);
      showResults := true;
    }

    /** Retaking keeps the quiz and the start time of the session. */
    method RetakeQuiz()
      requires Valid()
      modifies this
      ensures Valid()
      ensures !showResults && selectedAnswers == map[] && endTime == None
      ensures quizData == old(quizData) && startTime == old(startTime)
      ensures isLoading == old(isLoading)
    {
      showResults := false;
      selectedAnswers := map[];
      endTime := None;
    }

    /** The number of correct selections, shown once results are. */
    function Score(): (r: nat)
      reads this
      ensures (!showResults || quizData.None?) ==> r == 0
      ensures quizData.Some? ==> r <= |quizData.value.questions|
      ensures showResults && quizData.Some? ==>
                r == |CorrectSet(quizData.value.questions, selectedAnswers, |quizData.value.questions|)|
    {
      if !showResults || quizData.None? then 0
      else
        CountIsCorrectSetSize(quizData.value.questions, selectedAnswers);
        CountCorrect(quizData.value.questions, selectedAnswers)
    }

    /** The "time taken" text; it reads back as the whole seconds elapsed
        between the two timestamps, or 0 when either is missing or 0. */
    function TimeTaken(): (r: string)
      reads this
      ensures r == FormatSeconds(if Truthy(startTime) && Truthy(endTime)
                                 then ElapsedSeconds(startTime.value, endTime.value) else 0)
      ensures ParseDuration(r)
           == Some(if Truthy(startTime) && Truthy(endTime)
                   then ElapsedSeconds(startTime.value, endTime.value) else 0)
    {
      if !Truthy(endTime) || !Truthy(startTime) then
        FormatSecondsExamples();
        FormatSecondsRoundTrip(0);
        "0s"
      else
        var s := ElapsedSeconds(startTime.value, endTime.value);
        FormatSecondsRoundTrip(s);
        FormatSeconds(s)
    }
  }

  /** Generate, grade, retake and grade again with the same selections: the
      retake reuses the quiz and the start time, and the score is reproduced. */
  method RetakeScenario(text: string, quiz: Quiz, answers: Answers, t0: int, t1: int, t2: int)
    returns (first: nat, second: nat)
    requires ValidQuizForm(text, DefaultQuestionCount)
    ensures first == second == CountCorrect(quiz.questions, answers)
  {
    var session := new QuizSession();
    var accepted := session.Submit(text, DefaultQuestionCount, Resolved(Some(quiz)), t0);
    assert accepted && session.quizData == Some(quiz);
    session.CheckAnswers(answers, t1);
    first := session.Score();
    session.RetakeQuiz();
    assert session.startTime == Some(t0) && session.quizData == Some(quiz);
    assert session.Score() == 0;
    session.CheckAnswers(answers, t2);
    second := session.Score();
  }
}
