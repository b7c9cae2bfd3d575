/** String operations of the JavaScript runtime that the components rely on:
    `Array.prototype.join`, `String.prototype.split` with a string separator,
    and `String.prototype.trim`. Strings are sequences of characters. */
module Strings {

  /** `pat` occurs somewhere in `s` (JavaScript `s.includes(pat)`). */
  predicate Occurs(pat: string, s: string)
    decreases |s|
  {
    pat <= s || (s != [] && Occurs(pat, s[1..]))
  }

  /** `xs.join(sep)`: the pieces with `sep` between neighbours; `[].join(sep)` is "". */
  function Join(xs: seq<string>, sep: string): string
  {
    if |xs| == 0 then "" else if |xs| == 1 then xs[0] else xs[0] + sep + Join(xs[1..], sep)
  }

  /** `s.split(sep)` for a non-empty string separator: the text between the
      leftmost non-overlapping occurrences of `sep`. `"".split(sep)` is `[""]`. */
  function Split(s: string, sep: string): (r: seq<string>)
    requires sep != []
    ensures |r| >= 1
    decreases |s|
  {
    if sep <= s then [""] + Split(s[|sep|..], sep)
    else if s == [] then [""]
    else
      var rest := Split(s[1..], sep);
      [[s[0]] + rest[0]] + rest[1..]
  }

  lemma {:induction false} JoinPrependHead(c: string, xs: seq<string>, sep: string)
    requires |xs| >= 1
    ensures Join([c + xs[0]] + xs[1..], sep) == c + Join(xs, sep)
  {
    var ys := [c + xs[0]] + xs[1..];
    if |xs| > 1 {
      assert ys[1..] == xs[1..];
    }
  }

  lemma JoinCons(x: string, xs: seq<string>, sep: string)
    requires |xs| >= 1
    ensures Join([x] + xs, sep) == x + sep + Join(xs, sep)
  {
    assert ([x] + xs)[1..] == xs;
  }

  lemma JoinSplitAtSep(s: string, sep: string)
    requires sep != [] && sep <= s
    requires Join(Split(s[|sep|..], sep), sep) == s[|sep|..]
    ensures Join(Split(s, sep), sep) == s
  {
    var rest := Split(s[|sep|..], sep);
    assert Split(s, sep) == [""] + rest;
    JoinCons("", rest, sep);
    assert "" + sep == sep;
    assert sep == s[..|sep|];
    assert s == s[..|sep|] + s[|sep|..];
  }

  lemma JoinSplitPlainHead(s: string, sep: string)
    requires sep != [] && !(sep <= s) && s != []
    requires Join(Split(s[1..], sep), sep) == s[1..]
    ensures Join(Split(s, sep), sep) == s
  {
    var rest := Split(s[1..], sep);
    assert Split(s, sep) == [[s[0]] + rest[0]] + rest[1..];
    JoinPrependHead([s[0]], rest, sep);
    assert s == [s[0]] + s[1..];
  }

  /** Splitting and joining again gives back the original text. */
  lemma {:induction false} JoinSplit(s: string, sep: string)
    requires sep != []
    ensures Join(Split(s, sep), sep) == s
    decreases |s|
  {
    if sep <= s {
      JoinSplit(s[|sep|..], sep);
      JoinSplitAtSep(s, sep);
    } else if s != [] {
      JoinSplit(s[1..], sep);
      JoinSplitPlainHead(s, sep);
    }
  }

  /** The first piece of a split is a prefix of the text. */
  lemma {:induction false} SplitHeadIsPrefix(s: string, sep: string)
    requires sep != []
    ensures Split(s, sep)[0] <= s
    decreases |s|
  {
    if sep <= s {
    } else if s == [] {
    } else {
      SplitHeadIsPrefix(s[1..], sep);
      var rest := Split(s[1..], sep);
      assert Split(s, sep)[0] == [s[0]] + rest[0];
      assert s == [s[0]] + s[1..];
    }
  }

  lemma PrefixTransitive(a: string, b: string, c: string)
    requires a <= b && b <= c
    ensures a <= c
  {
    assert forall i :: 0 <= i < |a| ==> a[i] == b[i] == c[i];
  }

  /** No piece of a split contains the separator. */
  lemma {:induction false} SplitPiecesAvoidSep(s: string, sep: string)
    requires sep != []
    ensures forall i :: 0 <= i < |Split(s, sep)| ==> !Occurs(sep, Split(s, sep)[i])
    decreases |s|
  {
    var r := Split(s, sep);
    if sep <= s {
      SplitPiecesAvoidSep(s[|sep|..], sep);
      var rest := Split(s[|sep|..], sep);
      assert r == [""] + rest;
      forall i | 0 <= i < |r| ensures !Occurs(sep, r[i]) {
        if i > 0 { assert r[i] == rest[i - 1]; }
      }
    } else if s == [] {
    } else {
      SplitPiecesAvoidSep(s[1..], sep);
      SplitHeadIsPrefix(s[1..], sep);
      var rest := Split(s[1..], sep);
      var head := [s[0]] + rest[0];
      assert r == [head] + rest[1..];
      assert head <= s;
      if sep <= head {
        PrefixTransitive(sep, head, s);
        assert false;
      }
      assert head[1..] == rest[0];
      assert !Occurs(sep, head);
      forall i | 0 <= i < |r| ensures !Occurs(sep, r[i]) {
        if i > 0 { assert r[i] == rest[i]; }
      }
    }
  }

  /** Text in which no match of `sep` can start splits as if it were glued
      to the first piece of the rest. */
  lemma {:induction false} SplitAfterPlainText(a: string, t: string, sep: string)
    requires sep != [] && sep[0] !in a
    ensures Split(a + t, sep) == [a + Split(t, sep)[0]] + Split(t, sep)[1..]
    decreases |a|
  {
    if a == [] {
      var r := Split(t, sep);
      assert a + t == t;
      assert a + r[0] == r[0];
      assert [r[0]] + r[1..] == r;
    } else {
      var s := a + t;
      assert s[0] == a[0] && !(sep <= s);
      assert s[1..] == a[1..] + t;
      SplitAfterPlainText(a[1..], t, sep);
      var r := Split(t, sep);
      var rest := Split(s[1..], sep);
      assert rest[0] == a[1..] + r[0] && rest[1..] == r[1..];
      assert Split(s, sep) == [[s[0]] + rest[0]] + rest[1..];
      assert [s[0]] + rest[0] == a + r[0];
    }
  }

  /** A separator followed by text splits into an empty piece and the text's pieces. */
  lemma SplitAfterSep(sep: string, t: string)
    requires sep != []
    ensures Split(sep + t, sep) == [""] + Split(t, sep)
  {
    assert sep <= sep + t;
    assert (sep + t)[|sep|..] == t;
  }

  /** Text that cannot contain a match of `sep` is a single piece. */
  lemma SplitPlain(a: string, sep: string)
    requires sep != [] && sep[0] !in a
    ensures Split(a, sep) == [a]
  {
    SplitAfterPlainText(a, "", sep);
    assert a + "" == a;
  }

  /** Text without an occurrence of the separator is a single piece. */
  lemma {:induction false} SplitNoOccurrence(s: string, sep: string)
    requires sep != [] && !Occurs(sep, s)
    ensures Split(s, sep) == [s]
    decreases |s|
  {
    if s != [] {
      SplitNoOccurrence(s[1..], sep);
      assert [s[0]] + s[1..] == s;
    }
  }

  /** For a one-character separator absent from every piece, split undoes join. */
  lemma {:induction false} SplitJoinChar(xs: seq<string>, c: char)
    requires |xs| >= 1
    requires forall i :: 0 <= i < |xs| ==> c !in xs[i]
    ensures Split(Join(xs, [c]), [c]) == xs
    decreases |xs|
  {
    if |xs| == 1 {
      SplitPlain(xs[0], [c]);
    } else {
      var tail := Join(xs[1..], [c]);
      SplitJoinChar(xs[1..], c);
      SplitAfterSep([c], tail);
      assert Join(xs, [c]) == xs[0] + ([c] + tail);
      SplitAfterPlainText(xs[0], [c] + tail, [c]);
      var r := Split([c] + tail, [c]);
      assert r[0] == "" && r[1..] == xs[1..];
      assert xs[0] + r[0] == xs[0];
      assert xs == [xs[0]] + xs[1..];
    }
  }

  /** Joining splits at any interior position: the k-th piece sits after the
      first k pieces and their separators. */
  lemma {:induction false} JoinAt(xs: seq<string>, k: nat, sep: string)
    requires 0 < k < |xs|
    ensures Join(xs, sep) == Join(xs[..k], sep) + sep + Join(xs[k..], sep)
    decreases k
  {
    if k == 1 {
      assert xs[..1] == [xs[0]];
      assert xs[1..] == xs[k..];
    } else {
      JoinAt(xs[1..], k - 1, sep);
      assert xs[1..][..k - 1] == xs[..k][1..];
      assert xs[1..][k - 1..] == xs[k..];
    }
  }

  /** Piece k of a join sits between the joined earlier pieces and the
      joined later ones, each followed or preceded by the separator. */
  lemma JoinAround(xs: seq<string>, k: nat, sep: string)
    requires k < |xs|
    ensures Join(xs, sep)
         == (if k == 0 then "" else Join(xs[..k], sep) + sep)
            + xs[k]
            + (if k + 1 == |xs| then "" else sep + Join(xs[k + 1..], sep))
  {
    var tail := xs[k..];
    if k + 1 < |xs| {
      JoinAt(tail, 1, sep);
      assert tail[..1] == [xs[k]];
      assert tail[1..] == xs[k + 1..];
    } else {
      assert tail == [xs[k]];
    }
    if k > 0 {
      JoinAt(xs, k, sep);
    } else {
      assert xs[k..] == xs;
    }
  }

  /** The characters `String.prototype.trim` removes: ECMAScript WhiteSpace
      (tab, vertical tab, form feed, space, no-break space, byte order mark and
      the Unicode space separators) and LineTerminator code points. */
  predicate IsJsWhitespace(c: char)
  {
    var n := c as int;
    n == 0x09 || n == 0x0A || n == 0x0B || n == 0x0C || n == 0x0D || n == 0x20 ||
    n == 0xA0 || n == 0x1680 || (0x2000 <= n <= 0x200A) || n == 0x2028 ||
    n == 0x2029 || n == 0x202F || n == 0x205F || n == 0x3000 || n == 0xFEFF
  }

  predicate AllWhitespace(s: string)
  {
    forall i :: 0 <= i < |s| ==> IsJsWhitespace(s[i])
  }

  function TrimStart(s: string): string
  {
    if s != [] && IsJsWhitespace(s[0]) then TrimStart(s[1..]) else s
  }

  function TrimEnd(s: string): string
  {
    if s != [] && IsJsWhitespace(s[|s| - 1]) then TrimEnd(s[..|s| - 1]) else s
  }

  /** `s.trim()`. */
  function Trim(s: string): string
  {
    TrimEnd(TrimStart(s))
  }

  /** Leading whitespace removed: a suffix of `s` after only whitespace. */
  lemma {:induction false} TrimStartSpec(s: string)
    ensures var r := TrimStart(s);
            |r| <= |s| && r == s[|s| - |r|..] && AllWhitespace(s[..|s| - |r|])
            && (r == [] || !IsJsWhitespace(r[0]))
    decreases |s|
  {
    if s != [] && IsJsWhitespace(s[0]) {
      TrimStartSpec(s[1..]);
      var r := TrimStart(s[1..]);
      assert s[1..][..|s| - 1 - |r|] == s[1..|s| - |r|];
    }
  }

  /** Trailing whitespace removed: a prefix of `s` before only whitespace. */
  lemma {:induction false} TrimEndSpec(s: string)
    ensures var r := TrimEnd(s);
            |r| <= |s| && r == s[..|r|] && AllWhitespace(s[|r|..])
            && (r == [] || !IsJsWhitespace(r[|r| - 1]))
    decreases |s|
  {
    if s != [] && IsJsWhitespace(s[|s| - 1]) {
      TrimEndSpec(s[..|s| - 1]);
      var r := TrimEnd(s[..|s| - 1]);
      assert s[|r|..] == s[..|s| - 1][|r|..] + [s[|s| - 1]];
    }
  }

  /** Trimming keeps the part of `s` between its leading and its trailing
      whitespace, and that part neither starts nor ends with whitespace. */
  lemma TrimSpec(s: string)
    ensures var r := Trim(s);
            (r == [] || (!IsJsWhitespace(r[0]) && !IsJsWhitespace(r[|r| - 1])))
            && exists i :: 0 <= i <= |s| - |r| && r == s[i..i + |r|]
                           && AllWhitespace(s[..i]) && AllWhitespace(s[i + |r|..])
  {
    var t := TrimStart(s);
    var r := TrimEnd(t);
    TrimStartSpec(s);
    TrimEndSpec(t);
    var i := |s| - |t|;
    assert r == s[i..i + |r|];
    assert s[i + |r|..] == t[|r|..];
  }

  lemma {:induction false} TrimStartEmptyIff(s: string)
    ensures TrimStart(s) == [] <==> AllWhitespace(s)
    decreases |s|
  {
    if s != [] && IsJsWhitespace(s[0]) {
      TrimStartEmptyIff(s[1..]);
      assert forall i :: 1 <= i < |s| ==> s[i] == s[1..][i - 1];
    }
  }

  lemma {:induction false} TrimEndEmptyIff(s: string)
    ensures TrimEnd(s) == [] <==> AllWhitespace(s)
    decreases |s|
  {
    if s != [] && IsJsWhitespace(s[|s| - 1]) {
      TrimEndEmptyIff(s[..|s| - 1]);
      assert forall i :: 0 <= i < |s| - 1 ==> s[i] == s[..|s| - 1][i];
    }
  }

  /** What trimming leaves is empty exactly when every character is whitespace. */
  lemma TrimEmptyIff(s: string)
    ensures Trim(s) == [] <==> AllWhitespace(s)
  {
    var t := TrimStart(s);
    TrimStartEmptyIff(s);
    TrimEndEmptyIff(t);
    if t != [] {
      TrimStartHeadNotBlank(s);
      assert !AllWhitespace(t);
    }
  }

  lemma {:induction false} TrimStartHeadNotBlank(s: string)
    requires TrimStart(s) != []
    ensures !IsJsWhitespace(TrimStart(s)[0])
    decreases |s|
  {
    if s != [] && IsJsWhitespace(s[0]) {
      TrimStartHeadNotBlank(s[1..]);
    }
  }

  lemma {:induction false} OccursAt(s: string, pat: string, i: nat)
    requires i + |pat| <= |s| && s[i..i + |pat|] == pat
    ensures Occurs(pat, s)
    decreases i
  {
    if i == 0 {
      assert s[..|pat|] == pat;
    } else {
      assert s[1..][i - 1..i - 1 + |pat|] == s[i..i + |pat|];
      OccursAt(s[1..], pat, i - 1);
    }
  }

  /** Text shorter than a pattern cannot contain it. */
  lemma {:induction false} ShortNoOccurrence(pat: string, s: string)
    requires |s| < |pat|
    ensures !Occurs(pat, s)
    decreases |s|
  {
    if s != [] {
      ShortNoOccurrence(pat, s[1..]);
    }
  }

  /** When a split has more than one piece, the first piece is followed by
      the separator in the text. */
  lemma {:induction false} SplitHeadThenSep(s: string, sep: string)
    requires sep != [] && |Split(s, sep)| >= 2
    ensures Split(s, sep)[0] + sep <= s
    decreases |s|
  {
    if sep <= s {
      assert Split(s, sep)[0] + sep == sep;
    } else {
      var rest := Split(s[1..], sep);
      assert Split(s, sep) == [[s[0]] + rest[0]] + rest[1..];
      SplitHeadThenSep(s[1..], sep);
      assert Split(s, sep)[0] + sep == [s[0]] + (rest[0] + sep);
      assert s == [s[0]] + s[1..];
    }
  }

  /** Occurrences are taken leftmost first: no piece but the last, followed by
      all but the last character of the separator, contains the separator, so
      no occurrence could have started earlier than the one that ended it. */
  lemma {:induction false} SplitLeftmost(s: string, sep: string)
    requires sep != []
    ensures forall i :: 0 <= i < |Split(s, sep)| - 1 ==>
              !Occurs(sep, Split(s, sep)[i] + sep[..|sep| - 1])
    decreases |s|
  {
    var r := Split(s, sep);
    var tail := sep[..|sep| - 1];
    if sep <= s {
      var rest := Split(s[|sep|..], sep);
      assert r == [""] + rest;
      SplitLeftmost(s[|sep|..], sep);
      forall i | 0 <= i < |r| - 1 ensures !Occurs(sep, r[i] + tail) {
        if i == 0 {
          ShortNoOccurrence(sep, r[0] + tail);
        } else {
          assert r[i] == rest[i - 1];
        }
      }
    } else if s != [] {
      var rest := Split(s[1..], sep);
      assert r == [[s[0]] + rest[0]] + rest[1..];
      SplitLeftmost(s[1..], sep);
      forall i | 0 <= i < |r| - 1 ensures !Occurs(sep, r[i] + tail) {
        if i == 0 {
          var x := r[0] + tail;
          SplitHeadThenSep(s, sep);
          assert x <= r[0] + sep;
          if sep <= x {
            PrefixTransitive(sep, x, r[0] + sep);
            PrefixTransitive(sep, r[0] + sep, s);
            assert false;
          }
          assert x[1..] == rest[0] + tail;
        } else {
          assert r[i] == rest[i];
        }
      }
    }
  }
}
