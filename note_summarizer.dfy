/** The summary tab: the notes form, the panel state its submit handler
    updates, and the bullet list rendered from the summary text. */
module NoteSummarizer {
  import opened Wrappers
  import opened Strings

  const MinNotesLength := 50

  /** The form schema: at least 50 characters of notes. */
  predicate ValidNotes(notes: string)
  {
    |notes| >= MinNotesLength
  }

  /** A list marker: '-' or '*' followed by a space. */
  predicate HasMarker(s: string)
  {
    Occurs("- ", s) || Occurs("* ", s)
  }

  /** `line.replace(/[-*] /g, '')`: one left-to-right pass that deletes each
      marker it meets and resumes after it. */
  function RemoveMarkers(s: string): (r: string)
    ensures |r| <= |s|
    ensures forall c :: c in r ==> c in s
    decreases |s|
  {
    if |s| >= 2 && (s[0] == '-' || s[0] == '*') && s[1] == ' ' then
      var r := RemoveMarkers(s[2..]);
      assert forall c :: c in s[2..] ==> c in s;
      r
    else if s == [] then []
    else
      var r := [s[0]] + RemoveMarkers(s[1..]);
      assert forall c :: c in s[1..] ==> c in s;
      r
  }

  /** Text without markers is left as it is. */
  lemma {:induction false} NoMarkerUnchanged(s: string)
    requires !HasMarker(s)
    ensures RemoveMarkers(s) == s
    decreases |s|
  {
    if |s| >= 2 && (s[0] == '-' || s[0] == '*') && s[1] == ' ' {
      assert false;
    } else if s != [] {
      NoMarkerUnchanged(s[1..]);
      assert [s[0]] + s[1..] == s;
    }
  }

  /** The characters that are not '-', '*' or space, in order. */
  function Visible(s: string): string
  {
    if s == [] then []
    else (if s[0] == '-' || s[0] == '*' || s[0] == ' ' then [] else [s[0]]) + Visible(s[1..])
  }

  /** Only marker characters are deleted: every other character survives, in order. */
  lemma {:induction false} RemoveMarkersKeepsVisible(s: string)
    ensures Visible(RemoveMarkers(s)) == Visible(s)
    decreases |s|
  {
    if |s| >= 2 && (s[0] == '-' || s[0] == '*') && s[1] == ' ' {
      RemoveMarkersKeepsVisible(s[2..]);
      assert s[1..][1..] == s[2..];
    } else if s != [] {
      RemoveMarkersKeepsVisible(s[1..]);
      var r := [s[0]] + RemoveMarkers(s[1..]);
      assert r[0] == s[0] && r[1..] == RemoveMarkers(s[1..]);
    }
  }

  /** A list marker on its own: '-' or '*' followed by a space. */
  predicate IsMarker(m: string)
  {
    |m| == 2 && (m[0] == '-' || m[0] == '*') && m[1] == ' '
  }

  /** Every marker is deleted wherever it stands: the text before it and the
      text after it are each cleaned as if the other were not there. */
  lemma {:induction false} RemoveMarkersSplice(a: string, m: string, b: string)
    requires IsMarker(m)
    ensures RemoveMarkers(a + m + b) == RemoveMarkers(a) + RemoveMarkers(b)
    decreases |a|
  {
    if |a| <= 1 {
      SpliceShort(a, m, b);
    } else if (a[0] == '-' || a[0] == '*') && a[1] == ' ' {
      var s := a + m + b;
      assert s[0] == a[0] && s[1] == a[1] && s[2..] == a[2..] + m + b;
      RemoveMarkersSplice(a[2..], m, b);
    } else {
      var s := a + m + b;
      assert s[0] == a[0] && s[1] == a[1] && s[1..] == a[1..] + m + b;
      RemoveMarkersSplice(a[1..], m, b);
    }
  }

  /** The base cases of the splice law: at most one character before the marker. */
  lemma SpliceShort(a: string, m: string, b: string)
    requires IsMarker(m) && |a| <= 1
    ensures RemoveMarkers(a + m + b) == RemoveMarkers(a) + RemoveMarkers(b)
  {
    var mb := m + b;
    assert mb[0] == m[0] && mb[1] == ' ' && mb[2..] == b;
    assert RemoveMarkers(mb) == RemoveMarkers(b);
    if a != [] {
      var s := a + m + b;
      assert s[0] == a[0] && s[1] == m[0] && s[1..] == mb;
      assert RemoveMarkers(a) == [a[0]];
    } else {
      assert a + m + b == mb;
    }
  }

  /** The pass is not repeated: deleting one marker can join a '-' and a
      space into a new one, which stays. */
  lemma MarkerCanSurvive()
    ensures RemoveMarkers("--  x") == "- x" && HasMarker("- x")
  {
  }

  /** `line.trim().length > 0`. */
  predicate NonBlank(line: string)
  {
    |Trim(line)| > 0
  }

  /** A line is kept exactly when it has a character that is not whitespace. */
  lemma NonBlankIff(line: string)
    ensures NonBlank(line) <==> exists i :: 0 <= i < |line| && !IsJsWhitespace(line[i])
  {
    TrimEmptyIff(line);
  }

  /** `lines.filter(line => line.trim().length > 0)`. */
  function KeepNonBlank(lines: seq<string>): (r: seq<string>)
    ensures |r| <= |lines|
  {
    if lines == [] then []
    else (if NonBlank(lines[0]) then [lines[0]] else []) + KeepNonBlank(lines[1..])
  }

  /** The filter keeps only non-blank lines, and keeps every one of them. */
  lemma {:induction false} KeepNonBlankMembers(lines: seq<string>)
    ensures forall x :: x in KeepNonBlank(lines) ==> x in lines && NonBlank(x)
    ensures forall x :: x in lines && NonBlank(x) ==> x in KeepNonBlank(lines)
    decreases |lines|
  {
    if lines != [] {
      KeepNonBlankMembers(lines[1..]);
      assert lines == [lines[0]] + lines[1..];
    }
  }

  /** Filtering keeps the original order: it distributes over concatenation. */
  lemma {:induction false} KeepNonBlankAppend(a: seq<string>, b: seq<string>)
    ensures KeepNonBlank(a + b) == KeepNonBlank(a) + KeepNonBlank(b)
    decreases |a|
  {
    if a == [] {
      assert a + b == b;
    } else {
      var head := if NonBlank(a[0]) then [a[0]] else [];
      assert (a + b)[0] == a[0] && (a + b)[1..] == a[1..] + b;
      assert KeepNonBlank(a + b) == head + KeepNonBlank(a[1..] + b);
      KeepNonBlankAppend(a[1..], b);
      assert KeepNonBlank(a) == head + KeepNonBlank(a[1..]);
    }
  }

  /** The bullet items rendered for a summary: nothing for an empty summary;
      otherwise its non-blank lines, in order, each without its markers. */
  function SummaryItems(summary: string): (r: seq<string>)
    ensures summary == "" ==> r == []
    ensures |r| <= |Split(summary, "\n")|
    ensures |r| == |KeepNonBlank(Split(summary, "\n"))|
  {
    if summary == "" then []
    else
      var kept := KeepNonBlank(Split(summary, "\n"));
      seq(|kept|, k requires 0 <= k < |kept| => RemoveMarkers(kept[k]))
  }

  /** `item` is the marker-free form of a non-blank line among `lines`. */
  ghost predicate FromNonBlankLine(item: string, lines: seq<string>)
  {
    exists j :: 0 <= j < |lines| && NonBlank(lines[j]) && item == RemoveMarkers(lines[j])
  }

  /** Every item is the marker-free form of a non-blank line of the summary. */
  lemma ItemsComeFromLines(summary: string)
    ensures forall k :: 0 <= k < |SummaryItems(summary)| ==>
              FromNonBlankLine(SummaryItems(summary)[k], Split(summary, "\n"))
  {
    var lines := Split(summary, "\n");
    var items := SummaryItems(summary);
    if summary != "" {
      var kept := KeepNonBlank(lines);
      KeepNonBlankMembers(lines);
      forall k | 0 <= k < |items| ensures FromNonBlankLine(items[k], lines) {
        assert items[k] == RemoveMarkers(kept[k]);
        assert kept[k] in kept;
        var j :| 0 <= j < |lines| && lines[j] == kept[k];
        assert NonBlank(lines[j]) && items[k] == RemoveMarkers(lines[j]);
      }
    }
  }

  /** Conversely, every non-blank line of the summary is rendered as an item. */
  lemma LinesBecomeItems(summary: string)
    ensures forall j :: 0 <= j < |Split(summary, "\n")| && NonBlank(Split(summary, "\n")[j]) ==>
              RemoveMarkers(Split(summary, "\n")[j]) in SummaryItems(summary)
  {
    var lines := Split(summary, "\n");
    var items := SummaryItems(summary);
    if summary == "" {
      assert lines == [""];
      assert !NonBlank("");
    } else {
      var kept := KeepNonBlank(lines);
      KeepNonBlankMembers(lines);
      forall j | 0 <= j < |lines| && NonBlank(lines[j]) ensures RemoveMarkers(lines[j]) in items {
        assert lines[j] in lines;
        var k :| 0 <= k < |kept| && kept[k] == lines[j];
        assert items[k] == RemoveMarkers(kept[k]);
      }
    }
  }

  /** Items keep the order and the repeats of the lines they come from: item
      k is the marker-free form of the k-th kept line. */
  lemma ItemsInLineOrder(summary: string)
    ensures |SummaryItems(summary)| == |KeepNonBlank(Split(summary, "\n"))|
    ensures forall k :: 0 <= k < |SummaryItems(summary)| ==>
              SummaryItems(summary)[k] == RemoveMarkers(KeepNonBlank(Split(summary, "\n"))[k])
  {
    if summary == "" {
      assert SummaryItems(summary) == [];
    }
  }

  /** No item spans a line break. */
  lemma ItemsAreSingleLines(summary: string)
    ensures forall k :: 0 <= k < |SummaryItems(summary)| ==> '\n' !in SummaryItems(summary)[k]
  {
    var lines := Split(summary, "\n");
    SplitPiecesAvoidSep(summary, "\n");
    forall j | 0 <= j < |lines| ensures '\n' !in lines[j] {
      if '\n' in lines[j] {
        var i :| 0 <= i < |lines[j]| && lines[j][i] == '\n';
        OccursAt(lines[j], "\n", i);
      }
    }
    ItemsComeFromLines(summary);
    forall k | 0 <= k < |SummaryItems(summary)| ensures '\n' !in SummaryItems(summary)[k] {
      assert FromNonBlankLine(SummaryItems(summary)[k], lines);
    }
  }

  /** A summary whose lines are all non-blank and marker-free renders one item
      per line, unchanged, and joining the items gives back the summary. */
  lemma PlainSummaryRendersItsLines(summary: string)
    requires summary != ""
    requires forall j :: 0 <= j < |Split(summary, "\n")| ==>
               NonBlank(Split(summary, "\n")[j]) && !HasMarker(Split(summary, "\n")[j])
    ensures SummaryItems(summary) == Split(summary, "\n")
    ensures Join(SummaryItems(summary), "\n") == summary
  {
    var lines := Split(summary, "\n");
    AllKept(lines);
    forall k | 0 <= k < |lines| ensures RemoveMarkers(lines[k]) == lines[k] {
      NoMarkerUnchanged(lines[k]);
    }
    JoinSplit(summary, "\n");
  }

  lemma {:induction false} AllKept(lines: seq<string>)
    requires forall j :: 0 <= j < |lines| ==> NonBlank(lines[j])
    ensures KeepNonBlank(lines) == lines
    decreases |lines|
  {
    if lines != [] {
      AllKept(lines[1..]);
      assert [lines[0]] + lines[1..] == lines;
    }
  }

  /** The summary panel's state. */
  class SummaryPanel {
    var summary: string
    var isLoading: bool

    constructor ()
      ensures summary == "" && !isLoading
    {
      summary := "";
      isLoading := false;
    }

    /** The part of `onSubmit` before the summarisation call. */
    method BeginSubmit()
      modifies this
      ensures isLoading && summary == ""
    {
      isLoading := true;
      summary := "";
    }

    /** The part of `onSubmit` after the call settles: `result` is the summary,
        or None when the call failed. */
    method FinishSubmit(result: Option<string>)
      modifies this
      ensures !isLoading
      ensures summary == if result.Some? then result.value else old(summary)
    {
      if result.Some? {
        summary := result.value;
      }
      isLoading := false;
    }

    /** Submitting the form: rejected without change for short notes;
        otherwise the summary is the call's result, or "" when it failed. */
    method Submit(notes: string, result: Option<string>) returns (accepted: bool)
      modifies this
      ensures accepted == ValidNotes(notes)
      ensures !accepted ==> unchanged(this)
      ensures accepted ==> !isLoading && summary == (if result.Some? then result.value else "")
    {
      accepted := ValidNotes(notes);
      if accepted {
        BeginSubmit();
        FinishSubmit(result);
      }
    }
  }
}
