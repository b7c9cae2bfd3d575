/** The explanation tab: the topic form, the panel state its submit handler
    updates, and the paragraphs rendered from the explanation text. */
module TopicExplainer {
  import opened Wrappers
  import opened Strings

  const MinTopicLength := 3

  /** The form schema: a topic of at least 3 characters. */
  predicate ValidTopic(topic: string)
  {
    |topic| >= MinTopicLength
  }

  const ParagraphBreak := "\n\n"

  /** The paragraphs rendered for an explanation: nothing for an empty one,
      otherwise `explanation.split('\n\n')`. */
  function Paragraphs(explanation: string): (r: seq<string>)
    ensures r == [] <==> explanation == ""
  {
    if explanation == "" then [] else Split(explanation, ParagraphBreak)
  }

  /** Joining the paragraphs with a blank line gives back the explanation. */
  lemma ParagraphsRoundTrip(explanation: string)
    ensures Join(Paragraphs(explanation), ParagraphBreak) == explanation
  {
    if explanation != "" {
      JoinSplit(explanation, ParagraphBreak);
    }
  }

  /** No paragraph contains a paragraph break. */
  lemma ParagraphsAvoidBreak(explanation: string)
    ensures forall i :: 0 <= i < |Paragraphs(explanation)| ==> !Occurs(ParagraphBreak, Paragraphs(explanation)[i])
  {
    if explanation != "" {
      SplitPiecesAvoidSep(explanation, ParagraphBreak);
    }
  }

  /** Text without a paragraph break is a single paragraph. */
  lemma SingleParagraph(explanation: string)
    requires explanation != "" && !Occurs(ParagraphBreak, explanation)
    ensures Paragraphs(explanation) == [explanation]
  {
    SplitNoOccurrence(explanation, ParagraphBreak);
  }

  /** Breaks are matched leftmost first and do not overlap: three line breaks
      give an empty paragraph followed by a single line break. */
  lemma LeftmostBreaks()
    ensures Paragraphs("\n\n\n") == ["", "\n"]
  {
    assert ParagraphBreak <= "\n\n\n";
    assert "\n\n\n"[2..] == "\n";
    SplitNoOccurrence("\n", ParagraphBreak);
  }

  /** Breaks are matched leftmost first in general: every paragraph but the
      last is empty or does not end in a line break, since otherwise the break
      would have started one character earlier. */
  lemma ParagraphsLeftmost(explanation: string)
    ensures forall i :: 0 <= i < |Paragraphs(explanation)| - 1 ==>
              Paragraphs(explanation)[i] == "" ||
              Paragraphs(explanation)[i][|Paragraphs(explanation)[i]| - 1] != '\n'
  {
    var ps := Paragraphs(explanation);
    if explanation != "" {
      SplitLeftmost(explanation, ParagraphBreak);
      assert ParagraphBreak[..1] == "\n";
      forall i | 0 <= i < |ps| - 1
        ensures ps[i] == "" || ps[i][|ps[i]| - 1] != '\n'
      {
        var p := ps[i];
        if p != "" && p[|p| - 1] == '\n' {
          var x := p + "\n";
          assert x[|p| - 1..|p| + 1] == ParagraphBreak;
          OccursAt(x, ParagraphBreak, |p| - 1);
          assert false;
        }
      }
    }
  }

  /** The explanation panel's state. */
  class ExplanationPanel {
    var explanation: string
    var isLoading: bool

    constructor ()
      ensures explanation == "" && !isLoading
    {
      explanation := "";
      isLoading := false;
    }

    /** The part of `onSubmit` before the explanation call. */
    method BeginSubmit()
      modifies this
      ensures isLoading && explanation == ""
    {
      isLoading := true;
      explanation := "";
    }

    /** The part of `onSubmit` after the call settles: `result` is the
        explanation, or None when the call failed. */
    method FinishSubmit(result: Option<string>)
      modifies this
      ensures !isLoading
      ensures explanation == if result.Some? then result.value else old(explanation)
    {
      if result.Some? {
        explanation := result.value;
      }
      isLoading := false;
    }

    /** Submitting the form: rejected without change for a short topic;
        otherwise the explanation is the call's result, or "" when it failed. */
    method Submit(topic: string, result: Option<string>) returns (accepted: bool)
      modifies this
      ensures accepted == ValidTopic(topic)
      ensures !accepted ==> unchanged(this)
      ensures accepted ==> !isLoading && explanation == (if result.Some? then result.value else "")
    {
      accepted := ValidTopic(topic);
      if accepted {
        BeginSubmit();
        FinishSubmit(result);
      }
    }
  }
}
