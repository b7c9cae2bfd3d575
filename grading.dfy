/** The quiz entities and the values both quiz components derive from them:
    the score of an attempt and the "time taken" text. */
module Grading {
  import opened Wrappers
  import opened Strings
  import opened Decimal

  /** One generated multiple-choice question. Nothing guarantees that
      `correctAnswer` is one of `options`. */
  datatype Question = Question(question: string, options: seq<string>, correctAnswer: string)

  /** The generation result: questions in order. */
  datatype Quiz = Quiz(questions: seq<Question>)

  /** The selections of an attempt: question index to the chosen option text. */
  type Answers = map<int, string>

  /** Question `i` is answered, and answered with exactly the correct text. */
  predicate Matches(qs: seq<Question>, ans: Answers, i: int)
    requires 0 <= i < |qs|
  {
    i in ans && ans[i] == qs[i].correctAnswer
  }

  /** The running total of the left fold over the first `n` questions. */
  function CorrectUpTo(qs: seq<Question>, ans: Answers, n: nat): (r: nat)
    requires n <= |qs|
    ensures r <= n
  {
    if n == 0 then 0 else CorrectUpTo(qs, ans, n - 1) + (if Matches(qs, ans, n - 1) then 1 else 0)
  }

  /** The number of questions whose selection equals the correct answer. */
  function CountCorrect(qs: seq<Question>, ans: Answers): (r: nat)
    ensures r <= |qs|
  {
    CorrectUpTo(qs, ans, |qs|)
  }

  /** The indices that score a point. */
  ghost function CorrectSet(qs: seq<Question>, ans: Answers, n: nat): set<int>
    requires n <= |qs|
  {
    set i | 0 <= i < n && Matches(qs, ans, i)
  }

  /** The indices that hold a selection. */
  ghost function AnsweredSet(qs: seq<Question>, ans: Answers): set<int>
  {
    set i | 0 <= i < |qs| && i in ans
  }

  lemma {:induction false} CorrectUpToIsSetSize(qs: seq<Question>, ans: Answers, n: nat)
    requires n <= |qs|
    ensures CorrectUpTo(qs, ans, n) == |CorrectSet(qs, ans, n)|
  {
    if n > 0 {
      CorrectUpToIsSetSize(qs, ans, n - 1);
      var prev := CorrectSet(qs, ans, n - 1);
      if Matches(qs, ans, n - 1) {
        assert CorrectSet(qs, ans, n) == prev + {n - 1};
      } else {
        assert CorrectSet(qs, ans, n) == prev;
      }
    }
  }

  /** The score is the number of indices whose selection is the correct answer. */
  lemma CountIsCorrectSetSize(qs: seq<Question>, ans: Answers)
    ensures CountCorrect(qs, ans) == |CorrectSet(qs, ans, |qs|)|
  {
    CorrectUpToIsSetSize(qs, ans, |qs|);
  }

  /** Unanswered questions never score: the score is at most the number of
      answered questions. */
  lemma ScoreAtMostAnswered(qs: seq<Question>, ans: Answers)
    ensures CountCorrect(qs, ans) <= |AnsweredSet(qs, ans)|
  {
    CountIsCorrectSetSize(qs, ans);
    var c := CorrectSet(qs, ans, |qs|);
    var a := AnsweredSet(qs, ans);
    assert c <= a;
    assert |a| == |c| + |a - c|;
  }

  lemma {:induction false} CorrectUpToFullIff(qs: seq<Question>, ans: Answers, n: nat)
    requires n <= |qs|
    ensures CorrectUpTo(qs, ans, n) == n <==> forall i :: 0 <= i < n ==> Matches(qs, ans, i)
  {
    if n > 0 {
      CorrectUpToFullIff(qs, ans, n - 1);
    }
  }

  /** A full score means every question is answered correctly, and conversely. */
  lemma PerfectScoreIff(qs: seq<Question>, ans: Answers)
    ensures CountCorrect(qs, ans) == |qs| <==> forall i :: 0 <= i < |qs| ==> Matches(qs, ans, i)
  {
    CorrectUpToFullIff(qs, ans, |qs|);
  }

  lemma {:induction false} CorrectUpToAgree(qs: seq<Question>, a1: Answers, a2: Answers, n: nat)
    requires n <= |qs|
    requires forall i :: 0 <= i < |qs| ==> Matches(qs, a1, i) == Matches(qs, a2, i)
    ensures CorrectUpTo(qs, a1, n) == CorrectUpTo(qs, a2, n)
  {
    if n > 0 {
      CorrectUpToAgree(qs, a1, a2, n - 1);
    }
  }

  /** The score depends only on the selections at the quiz's own indices:
      entries at other keys make no difference. */
  lemma ScoreDependsOnQuizIndices(qs: seq<Question>, a1: Answers, a2: Answers)
    requires forall i :: 0 <= i < |qs| ==> Lookup(a1, i) == Lookup(a2, i)
    ensures CountCorrect(qs, a1) == CountCorrect(qs, a2)
  {
    forall i | 0 <= i < |qs| ensures Matches(qs, a1, i) == Matches(qs, a2, i) {
      assert Lookup(a1, i) == Lookup(a2, i);
    }
    CorrectUpToAgree(qs, a1, a2, |qs|);
  }

  lemma {:induction false} CorrectUpToAfterAnswer(qs: seq<Question>, ans: Answers, i: int, a: string, n: nat)
    requires 0 <= i < |qs| && n <= |qs|
    ensures CorrectUpTo(qs, ans[i := a], n) + (if i < n && Matches(qs, ans, i) then 1 else 0)
         == CorrectUpTo(qs, ans, n) + (if i < n && a == qs[i].correctAnswer then 1 else 0)
  {
    if n > 0 {
      CorrectUpToAfterAnswer(qs, ans, i, a, n - 1);
    }
  }

  /** Overwriting one selection changes the score only by that question's point. */
  lemma ScoreAfterAnswer(qs: seq<Question>, ans: Answers, i: int, a: string)
    requires 0 <= i < |qs|
    ensures CountCorrect(qs, ans[i := a])
         == CountCorrect(qs, ans) - (if Matches(qs, ans, i) then 1 else 0)
                                  + (if a == qs[i].correctAnswer then 1 else 0)
  {
    CorrectUpToAfterAnswer(qs, ans, i, a, |qs|);
  }

  /** JavaScript truthiness of a `number | null` timestamp: present and not 0. */
  predicate Truthy(t: Option<int>)
  {
    t.Some? && t.value != 0
  }

  /** `Math.floor((end - start) / 1000)` over millisecond timestamps. */
  function ElapsedSeconds(start: int, end: int): (s: int)
    ensures s * 1000 <= end - start < (s + 1) * 1000
  {
    (end - start) / 1000
  }

  /** The "time taken" text for a number of seconds: "{s}s" below a minute,
      "{m}m {r}s" from one minute on. */
  function FormatSeconds(s: int): (r: string)
    ensures |r| >= 2 && r[|r| - 1] == 's'
    ensures Occurs("m ", r) <==> s >= 60
    ensures s < 60 ==> r == IntToString(s) + "s"
    ensures s >= 60 ==> r == NatToString(s / 60) + "m " + NatToString(s % 60) + "s"
  {
    if s < 60 then
      var t := IntToString(s) + "s";
      NoMinutesMark(t);
      t
    else
      var t := NatToString(s / 60) + "m " + NatToString(s % 60) + "s";
      MinutesMark(NatToString(s / 60), NatToString(s % 60) + "s");
      assert t == NatToString(s / 60) + ("m " + (NatToString(s % 60) + "s"));
      t
  }

  lemma {:induction false} NoMinutesMark(t: string)
    requires 'm' !in t
    ensures !Occurs("m ", t)
    decreases |t|
  {
    if t != [] {
      assert t[0] != 'm';
      NoMinutesMark(t[1..]);
    }
  }

  lemma {:induction false} MinutesMark(a: string, b: string)
    ensures Occurs("m ", a + ("m " + b))
    decreases |a|
  {
    if a != [] {
      assert (a + ("m " + b))[1..] == a[1..] + ("m " + b);
      MinutesMark(a[1..], b);
    } else {
      assert "m " <= a + ("m " + b);
    }
  }

  /** Reads a "time taken" text back into seconds; accepts exactly the texts
      the rendering produces: a seconds-only text below a minute, a minutes
      text with at least one minute and a remainder below sixty. */
  function ParseDuration(t: string): Option<int>
  {
    if |t| == 0 || t[|t| - 1] != 's' then None
    else
      var parts := Split(t[..|t| - 1], "m ");
      if |parts| == 1 then
        match ParseInt(parts[0])
        case Some(v) => if v < 60 then Some(v) else None
        case None => None
      else if |parts| == 2 then
        match (ParseNat(parts[0]), ParseNat(parts[1]))
        case (Some(m), Some(r)) => if m >= 1 && r < 60 then Some(m * 60 + r) else None
        case _ => None
      else None
  }

  /** The rendering loses nothing: minutes times sixty plus the remainder is the
      elapsed number of seconds, and it can be read back. */
  lemma FormatSecondsRoundTrip(s: int)
    ensures ParseDuration(FormatSeconds(s)) == Some(s)
  {
    if s < 60 {
      SecondsRoundTrip(s);
    } else {
      MinutesRoundTrip(s);
    }
  }

  lemma SecondsRoundTrip(s: int)
    requires s < 60
    ensures ParseDuration(IntToString(s) + "s") == Some(s)
  {
    var t := IntToString(s) + "s";
    var body := IntToString(s);
    assert t[..|t| - 1] == body;
    SplitPlain(body, "m ");
    IntRoundTrip(s);
  }

  lemma MinutesRoundTrip(s: int)
    requires s >= 60
    ensures ParseDuration(NatToString(s / 60) + "m " + NatToString(s % 60) + "s") == Some(s)
  {
    var m, r := s / 60, s % 60;
    DivMod60(s);
    MinutesText(m, r);
  }

  lemma DivMod60(s: int)
    requires s >= 60
    ensures s / 60 >= 1 && 0 <= s % 60 < 60 && (s / 60) * 60 + s % 60 == s
  {
  }

  lemma MinutesText(m: nat, r: nat)
    requires m >= 1 && r < 60
    ensures ParseDuration(NatToString(m) + "m " + NatToString(r) + "s") == Some(m * 60 + r)
  {
    NatRoundTrip(m);
    NatRoundTrip(r);
    ReadMinutes(NatToString(m), NatToString(r), m, r);
  }

  lemma ReadMinutes(a: string, b: string, m: nat, r: nat)
    requires ParseNat(a) == Some(m) && ParseNat(b) == Some(r) && m >= 1 && r < 60
    ensures ParseDuration(a + "m " + b + "s") == Some(m * 60 + r)
  {
    var t := a + "m " + b + "s";
    assert t[..|t| - 1] == a + "m " + b;
    assert t[|t| - 1] == 's';
    SplitMinutes(a, b);
  }

  /** Two numerals around the minutes mark split into exactly those numerals. */
  lemma SplitMinutes(a: string, b: string)
    requires AllDigits(a) && AllDigits(b)
    ensures Split(a + "m " + b, "m ") == [a, b]
  {
    assert forall i :: 0 <= i < |a| ==> a[i] != 'm';
    assert forall i :: 0 <= i < |b| ==> b[i] != 'm';
    assert a + "m " + b == a + ("m " + b);
    SplitAfterPlainText(a, "m " + b, "m ");
    SplitAfterSep("m ", b);
    SplitPlain(b, "m ");
    var x := Split("m " + b, "m ");
    assert x == ["", b];
    assert a + x[0] == a;
  }

  /** Every text the reader accepts is the rendering of what it reads: no two
      numbers of seconds share a text, and no other text passes for one. */
  lemma ParseDurationCanonical(t: string, s: int)
    requires ParseDuration(t) == Some(s)
    ensures t == FormatSeconds(s)
  {
    var body := t[..|t| - 1];
    var parts := Split(body, "m ");
    JoinSplit(body, "m ");
    assert t == body + "s";
    if |parts| == 1 {
      assert body == parts[0];
      IntCanonical(parts[0], s);
    } else {
      var m, r := ParseNat(parts[0]).value, ParseNat(parts[1]).value;
      NatCanonical(parts[0], m);
      NatCanonical(parts[1], r);
      assert body == parts[0] + "m " + parts[1];
      assert s / 60 == m && s % 60 == r;
    }
  }

  /** The rendering and the reader are inverse bijections between the integers
      and the texts the reader accepts. */
  lemma FormatParseIff(s: int, t: string)
    ensures FormatSeconds(s) == t <==> ParseDuration(t) == Some(s)
  {
    FormatSecondsRoundTrip(s);
    if ParseDuration(t) == Some(s) {
      ParseDurationCanonical(t, s);
    }
  }

  /** Worked examples of the duration text. */
  lemma FormatSecondsExamples()
    ensures FormatSeconds(0) == "0s"
    ensures FormatSeconds(59) == "59s"
    ensures FormatSeconds(60) == "1m 0s"
    ensures FormatSeconds(90) == "1m 30s"
    ensures FormatSeconds(125) == "2m 5s"
  {
    SecondsExamples();
    MinutesExamples();
  }

  lemma SecondsExamples()
    ensures FormatSeconds(0) == "0s" && FormatSeconds(59) == "59s"
  {
    assert NatToString(59) == NatToString(5) + ['9'];
  }

  lemma MinutesExamples()
    ensures FormatSeconds(60) == "1m 0s" && FormatSeconds(90) == "1m 30s"
    ensures FormatSeconds(125) == "2m 5s"
  {
    assert NatToString(30) == NatToString(3) + ['0'];
  }
}
