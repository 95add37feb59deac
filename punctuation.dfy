/**
 * The punctuation corrector: `re.sub(r'(\S)([၊။])', r'\1 \2', text)` puts a space
 * between a non-whitespace character and a following ၊ or ။. Python's scan is leftmost and
 * non-overlapping, so after a match it resumes behind the consumed mark.
 */
module Punctuation {
  import opened Chars
  import opened Strings

  /** The pattern matches at the start of `s`. */
  predicate MatchAt(s: string)
  {
    |s| >= 2 && !IsWs(s[0]) && IsSectionMark(s[1])
  }

  /** `correct_segmentation`. */
  function CorrectSegmentation(s: string): (r: string)
    ensures |r| >= |s|
    ensures |s| > 0 ==> |r| > 0 && r[0] == s[0]
    decreases |s|
  {
    if |s| == 0 then ""
    else if MatchAt(s) then [s[0], ' ', s[1]] + CorrectSegmentation(s[2..])
    else [s[0]] + CorrectSegmentation(s[1..])
  }

  /** A mark glued to the non-whitespace character before it, at `k`, `k + 1`. */
  predicate Glued(s: string, k: int)
  {
    0 <= k && k + 1 < |s| && !IsWs(s[k]) && IsSectionMark(s[k + 1])
  }

  /** Two marks side by side at `k`, `k + 1`. */
  predicate DoubleMark(s: string, k: int)
  {
    0 <= k && k + 1 < |s| && IsSectionMark(s[k]) && IsSectionMark(s[k + 1])
  }

  /** `r` is `s` with U+0020 characters inserted: every character of `s` is kept, in
      order, and everything else in `r` is a space. */
  ghost predicate SpacesInserted(s: string, r: string)
    decreases |r|
  {
    if |r| == 0 then |s| == 0
    else
      || (|s| > 0 && r[0] == s[0] && SpacesInserted(s[1..], r[1..]))
      || (r[0] == ' ' && SpacesInserted(s, r[1..]))
  }

  /** The corrector only inserts U+0020 characters: its output is its input with spaces
      inserted, and deleting the spaces of both gives the same string. */
  lemma {:induction false} OnlySpacesInserted(s: string)
    ensures SpacesInserted(s, CorrectSegmentation(s))
    ensures Remove(CorrectSegmentation(s), ' ') == Remove(s, ' ')
    decreases |s|
  {
    if |s| > 0 {
      if MatchAt(s) {
        OnlySpacesInserted(s[2..]);
        var r := CorrectSegmentation(s);
        var rest := CorrectSegmentation(s[2..]);
        assert r == [s[0], ' ', s[1]] + rest;
        assert r[1..][1..][1..] == rest && s[1..][1..] == s[2..];
        assert SpacesInserted(s[1..], r[1..][1..]);
        assert SpacesInserted(s[1..], r[1..]);
        RemoveAppend([s[0], ' ', s[1]], CorrectSegmentation(s[2..]), ' ');
        RemoveAppend(s[..2], s[2..], ' ');
        assert s[..2] + s[2..] == s;
        LetterIsNotWs(s[1]);
        assert Remove([s[0], ' ', s[1]], ' ') == Remove(s[..2], ' ') by {
          assert [s[0], ' ', s[1]][1..] == [' ', s[1]];
          assert [' ', s[1]][1..] == [s[1]];
          assert s[..2][1..] == [s[1]];
          assert [s[1]][1..] == "";
        }
      } else {
        OnlySpacesInserted(s[1..]);
        assert CorrectSegmentation(s)[1..] == CorrectSegmentation(s[1..]);
        RemoveAppend([s[0]], CorrectSegmentation(s[1..]), ' ');
        RemoveAppend([s[0]], s[1..], ' ');
        assert [s[0]] + s[1..] == s;
      }
    }
  }

  /** Text without a glued mark passes through unchanged. */
  lemma {:induction false} UnchangedWithoutGlue(s: string)
    requires forall k :: !Glued(s, k)
    ensures CorrectSegmentation(s) == s
    decreases |s|
  {
    if |s| > 0 {
      assert !Glued(s, 0);
      forall k ensures !Glued(s[1..], k) {
        assert !Glued(s, k + 1);
      }
      UnchangedWithoutGlue(s[1..]);
    }
  }

  /** The number of matches of the left-to-right, non-overlapping scan. */
  function MatchCount(s: string): nat
    decreases |s|
  {
    if |s| == 0 then 0
    else if MatchAt(s) then 1 + MatchCount(s[2..])
    else MatchCount(s[1..])
  }

  /** One space is inserted per match, and nothing else. */
  lemma {:induction false} LengthCountsMatches(s: string)
    ensures |CorrectSegmentation(s)| == |s| + MatchCount(s)
    decreases |s|
  {
    if |s| > 0 {
      if MatchAt(s) {
        LengthCountsMatches(s[2..]);
      } else {
        LengthCountsMatches(s[1..]);
      }
    }
  }

  /** A glued mark always makes the output longer. */
  lemma {:induction false} GlueLengthens(s: string, k: int)
    requires Glued(s, k)
    ensures |CorrectSegmentation(s)| > |s|
    decreases |s|
  {
    if !MatchAt(s) {
      assert k > 0;
      assert Glued(s[1..], k - 1);
      GlueLengthens(s[1..], k - 1);
    }
  }

  /** The corrector changes a text exactly when some mark is glued to its predecessor. */
  lemma ChangedIffGlued(s: string)
    ensures CorrectSegmentation(s) == s <==> forall k :: !Glued(s, k)
  {
    if CorrectSegmentation(s) == s {
      forall k ensures !Glued(s, k) {
        if Glued(s, k) {
          GlueLengthens(s, k);
        }
      }
    } else if forall k :: !Glued(s, k) {
      UnchangedWithoutGlue(s);
    }
  }

  /** Without two adjacent marks, every mark of the output has whitespace (or the start of
      the text) before it. */
  lemma {:induction false} SpacedWithoutDoubleMarks(s: string)
    requires forall k :: !DoubleMark(s, k)
    ensures forall k :: !Glued(CorrectSegmentation(s), k)
    decreases |s|
  {
    if |s| > 0 {
      var r := CorrectSegmentation(s);
      if MatchAt(s) {
        var rest := CorrectSegmentation(s[2..]);
        forall k ensures !DoubleMark(s[2..], k) {
          assert !DoubleMark(s, k + 2);
        }
        SpacedWithoutDoubleMarks(s[2..]);
        assert r == [s[0], ' ', s[1]] + rest;
        forall k ensures !Glued(r, k) {
          if k >= 3 {
            assert !Glued(rest, k - 3);
          } else if k == 2 && |rest| > 0 {
            assert rest[0] == s[2];
            assert !DoubleMark(s, 1);
          }
        }
      } else {
        var rest := CorrectSegmentation(s[1..]);
        forall k ensures !DoubleMark(s[1..], k) {
          assert !DoubleMark(s, k + 1);
        }
        SpacedWithoutDoubleMarks(s[1..]);
        assert r == [s[0]] + rest;
        forall k ensures !Glued(r, k) {
          if k >= 1 {
            assert !Glued(rest, k - 1);
          } else if |rest| > 0 {
            assert rest[0] == s[1];
          }
        }
      }
    }
  }

  /** Without two adjacent marks, correcting twice is correcting once. */
  lemma IdempotentWithoutDoubleMarks(s: string)
    requires forall k :: !DoubleMark(s, k)
    ensures CorrectSegmentation(CorrectSegmentation(s)) == CorrectSegmentation(s)
  {
    SpacedWithoutDoubleMarks(s);
    UnchangedWithoutGlue(CorrectSegmentation(s));
  }

  /** Two marks behind a word, as in `x။။`: only the first gets a space, because the second
      one's predecessor was consumed by the first match; a second run adds the other one. */
  lemma DoubleMarkOnePass(x: char, m1: char, m2: char)
    requires !IsWs(x) && IsSectionMark(m1) && IsSectionMark(m2)
    ensures CorrectSegmentation([x, m1, m2]) == [x, ' ', m1, m2]
    ensures CorrectSegmentation([x, ' ', m1, m2]) == [x, ' ', m1, ' ', m2]
  {
    LetterIsNotWs(m1);
    var s := [x, m1, m2];
    assert MatchAt(s);
    assert s[2..] == [m2];
    assert CorrectSegmentation([m2]) == [m2];
    var t := [x, ' ', m1, m2];
    assert MatchAt([m1, m2]) && [m1, m2][2..] == [];
    assert CorrectSegmentation([m1, m2]) == [m1, ' ', m2];
    assert !MatchAt([' ', m1, m2]) && [' ', m1, m2][1..] == [m1, m2];
    assert CorrectSegmentation([' ', m1, m2]) == [' ', m1, ' ', m2];
    assert !MatchAt(t) && t[1..] == [' ', m1, m2];
  }

  /** Correcting line by line is correcting the whole text when every line but the last
      ends in whitespace: no match can straddle a whitespace character. */
  lemma {:induction false} CorrectAppend(a: string, b: string)
    requires |a| == 0 || IsWs(a[|a| - 1])
    ensures CorrectSegmentation(a + b) == CorrectSegmentation(a) + CorrectSegmentation(b)
    decreases |a|
  {
    if |a| == 0 {
      assert a + b == b;
    } else if MatchAt(a) {
      var tail := a[2..];
      assert |tail| == 0 || tail[|tail| - 1] == a[|a| - 1];
      CorrectAppend(tail, b);
      CorrectAppendMatch(a, b);
    } else {
      var tail := a[1..];
      assert |tail| == 0 || tail[|tail| - 1] == a[|a| - 1];
      CorrectAppend(tail, b);
      CorrectAppendCopy(a, b);
    }
  }

  /** The step of `CorrectAppend` where the text starts with a match. */
  lemma CorrectAppendMatch(a: string, b: string)
    requires MatchAt(a)
    requires CorrectSegmentation(a[2..] + b) == CorrectSegmentation(a[2..]) + CorrectSegmentation(b)
    ensures CorrectSegmentation(a + b) == CorrectSegmentation(a) + CorrectSegmentation(b)
  {
    MatchBefore(a, b);
    UnfoldMatch(a);
    Regroup([a[0], ' ', a[1]], CorrectSegmentation(a[2..]), CorrectSegmentation(b));
  }

  /** A match at the start of `a` is a match at the start of `a + b`. */
  lemma MatchBefore(a: string, b: string)
    requires MatchAt(a)
    ensures CorrectSegmentation(a + b) == [a[0], ' ', a[1]] + CorrectSegmentation(a[2..] + b)
  {
    assert (a + b)[2..] == a[2..] + b;
    assert (a + b)[0] == a[0] && (a + b)[1] == a[1];
    UnfoldMatch(a + b);
  }

  /** The step of `CorrectAppend` where the first character is copied. */
  lemma CorrectAppendCopy(a: string, b: string)
    requires |a| > 0 && !MatchAt(a) && (|a| >= 2 || IsWs(a[0]))
    requires CorrectSegmentation(a[1..] + b) == CorrectSegmentation(a[1..]) + CorrectSegmentation(b)
    ensures CorrectSegmentation(a + b) == CorrectSegmentation(a) + CorrectSegmentation(b)
  {
    CopyBefore(a, b);
    UnfoldCopy(a);
    Regroup([a[0]], CorrectSegmentation(a[1..]), CorrectSegmentation(b));
  }

  /** A first character of `a` that is copied is copied from `a + b` too. */
  lemma CopyBefore(a: string, b: string)
    requires |a| > 0 && !MatchAt(a) && (|a| >= 2 || IsWs(a[0]))
    ensures CorrectSegmentation(a + b) == [a[0]] + CorrectSegmentation(a[1..] + b)
  {
    assert (a + b)[1..] == a[1..] + b;
    assert (a + b)[0] == a[0] && (|a| >= 2 ==> (a + b)[1] == a[1]);
    UnfoldCopy(a + b);
  }

  lemma UnfoldMatch(s: string)
    requires MatchAt(s)
    ensures CorrectSegmentation(s) == [s[0], ' ', s[1]] + CorrectSegmentation(s[2..])
  {
  }

  lemma UnfoldCopy(s: string)
    requires |s| > 0 && !MatchAt(s)
    ensures CorrectSegmentation(s) == [s[0]] + CorrectSegmentation(s[1..])
  {
  }

  lemma Regroup(h: string, x: string, y: string)
    ensures h + (x + y) == (h + x) + y
  {
  }

  /** The last character of a text is the last character of its correction: a match ends
      on its mark, and a copied character is itself. */
  lemma {:induction false} LastKept(s: string)
    requires |s| > 0
    ensures |CorrectSegmentation(s)| > 0
    ensures CorrectSegmentation(s)[|CorrectSegmentation(s)| - 1] == s[|s| - 1]
    decreases |s|
  {
    if MatchAt(s) {
      UnfoldMatch(s);
      if |s| > 2 {
        LastKept(s[2..]);
      }
    } else {
      UnfoldCopy(s);
      if |s| > 1 {
        LastKept(s[1..]);
      }
    }
  }

  /** A mark at the start of the text or after whitespace gets no space: the `(\S)` half of
      the pattern. The correction splits before the mark, the mark starts its part, and the
      character before it in the output is the whitespace character before it in the input. */
  lemma MarkAfterWsUnspaced(s: string, i: int)
    requires 0 <= i < |s| && IsSectionMark(s[i]) && (i == 0 || IsWs(s[i - 1]))
    ensures CorrectSegmentation(s) == CorrectSegmentation(s[..i]) + CorrectSegmentation(s[i..])
    ensures CorrectSegmentation(s[i..])[0] == s[i]
    ensures i > 0 ==> CorrectSegmentation(s[..i])[|CorrectSegmentation(s[..i])| - 1] == s[i - 1]
  {
    assert s[..i] + s[i..] == s;
    CorrectAppend(s[..i], s[i..]);
    if i > 0 {
      LastKept(s[..i]);
    }
  }

  /** Every line corrected on its own, the results concatenated. */
  function CorrectEach(lines: seq<string>): string
  {
    if |lines| == 0 then "" else CorrectSegmentation(lines[0]) + CorrectEach(lines[1..])
  }

  /** Lines of a text as a file iterator yields them: every line but the last ends in a
      newline. */
  predicate IsLineSplit(lines: seq<string>)
  {
    forall k :: 0 <= k < |lines| - 1 ==> |lines[k]| > 0 && lines[k][|lines[k]| - 1] == '\n'
  }

  /** On such lines, line-wise correction is correction of the whole text. */
  lemma {:induction false} CorrectEachWhole(lines: seq<string>)
    requires IsLineSplit(lines)
    ensures CorrectEach(lines) == CorrectSegmentation(Concat(lines))
  {
    if |lines| == 1 {
      assert lines[1..] == [];
      assert Concat(lines) == lines[0] + "" == lines[0];
      assert CorrectEach(lines) == CorrectSegmentation(lines[0]) + "";
    } else if |lines| > 1 {
      assert IsLineSplit(lines[1..]) by {
        forall k | 0 <= k < |lines[1..]| - 1
          ensures |lines[1..][k]| > 0 && lines[1..][k][|lines[1..][k]| - 1] == '\n'
        {
          assert lines[1..][k] == lines[k + 1];
        }
      }
      CorrectEachWhole(lines[1..]);
      CorrectAppend(lines[0], Concat(lines[1..]));
    }
  }

  lemma CorrectEachStep(lines: seq<string>, k: nat, out: string)
    requires k < |lines|
    ensures out + CorrectEach(lines[k..]) == (out + CorrectSegmentation(lines[k])) + CorrectEach(lines[k + 1..])
  {
    assert lines[k..][1..] == lines[k + 1..];
  }

  lemma CorrectEachEnd(lines: seq<string>, out: string)
    ensures out + CorrectEach(lines[|lines|..]) == out
  {
    assert lines[|lines|..] == [];
  }

  /** `process_stream`: each line read from the input is corrected and written out. */
  method ProcessStream(lines: seq<string>) returns (out: string)
    ensures out == CorrectEach(lines)
    ensures IsLineSplit(lines) ==> out == CorrectSegmentation(Concat(lines))
  {
    out := "";
    var k := 0;
    while k < |lines|
      invariant 0 <= k <= |lines|
      invariant out + CorrectEach(lines[k..]) == CorrectEach(lines)
    {
      CorrectEachStep(lines, k, out);
      out := out + CorrectSegmentation(lines[k]);
      k := k + 1;
    }
    CorrectEachEnd(lines, out);
    if IsLineSplit(lines) {
      CorrectEachWhole(lines);
    }
  }
}
