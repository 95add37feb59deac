/**
 * Smart space removal (`remove_all_spaces`, `remove_myanmar_spaces`, `process_lines`,
 * and the copies `_remove_all_spaces`, `_remove_myanmar_spaces`, `_preprocess_text` in
 * the segmenter). Each `re.sub` of a pattern `(P1)\s+(P2)` is a left-to-right scan
 * with Python's leftmost, non-overlapping matching.
 */
module SpaceRemover {
  import opened Wrappers
  import opened Chars
  import opened Strings

  /** `remove_all_spaces`: `text.replace(' ', '')`. */
  function RemoveAllSpaces(text: string): (r: string)
    ensures r == Remove(text, ' ')
  {
    ReplaceByEmpty(text, ' ');
    Replace(text, " ", "")
  }

  /** Deleting spaces removes every U+0020, keeps every other character in order, and is
      idempotent. */
  lemma RemoveAllSpacesProps(text: string)
    ensures ' ' !in RemoveAllSpaces(text)
    ensures forall c :: c != ' ' ==> (c in RemoveAllSpaces(text) <==> c in text)
    ensures RemoveAllSpaces(RemoveAllSpaces(text)) == RemoveAllSpaces(text)
    ensures |RemoveAllSpaces(text)| <= |text|
  {
    RemoveProps(text, ' ');
  }

  /** `(P1)\s+(P2)` matches at the start of `s`: a `P1` character, a maximal non-empty
      whitespace run, then a `P2` character (a shorter run cannot help, since `P2` is
      never whitespace here). */
  predicate MatchGap(s: string, p1: char -> bool, p2: char -> bool)
  {
    && |s| > 0 && p1(s[0])
    && var run := WsRunLen(s[1..]);
       run >= 1 && 1 + run < |s| && p2(s[1 + run])
  }

  /** `re.sub(r'(P1)\s+(P2)', r'\1' + mid + r'\2', s)`: scanning from the left, each match
      is replaced by its two end characters around `mid`, and the scan resumes after the
      consumed `P2` character. */
  function SubGap(s: string, p1: char -> bool, p2: char -> bool, mid: string): string
    decreases |s|
  {
    if |s| == 0 then ""
    else if MatchGap(s, p1, p2) then
      var run := WsRunLen(s[1..]);
      [s[0]] + mid + [s[1 + run]] + SubGap(s[2 + run..], p1, p2, mid)
    else [s[0]] + SubGap(s[1..], p1, p2, mid)
  }

  /** No `P1` whitespace `P2` occurrence anywhere in `s`. */
  ghost predicate NoGap(s: string, p1: char -> bool, p2: char -> bool)
  {
    forall k :: 0 <= k < |s| ==> !MatchGap(s[k..], p1, p2)
  }

  /** `a` is `b` with some whitespace characters deleted. */
  ghost predicate DropsWs(a: string, b: string)
    decreases |b|
  {
    if |b| == 0 then a == ""
    else
      || (|a| > 0 && a[0] == b[0] && DropsWs(a[1..], b[1..]))
      || (IsWs(b[0]) && DropsWs(a, b[1..]))
  }

  lemma {:induction false} DropsWsRefl(s: string)
    ensures DropsWs(s, s)
    decreases |s|
  {
    if |s| > 0 {
      DropsWsRefl(s[1..]);
    }
  }

  lemma {:induction false} DropsWsTrans(a: string, b: string, c: string)
    requires DropsWs(a, b) && DropsWs(b, c)
    ensures DropsWs(a, c)
    decreases |c|
  {
    if |c| > 0 {
      if IsWs(c[0]) && DropsWs(b, c[1..]) {
        DropsWsTrans(a, b, c[1..]);
      } else {
        assert |b| > 0 && b[0] == c[0] && DropsWs(b[1..], c[1..]);
        if |a| > 0 && a[0] == b[0] && DropsWs(a[1..], b[1..]) {
          DropsWsTrans(a[1..], b[1..], c[1..]);
        } else {
          DropsWsTrans(a, b[1..], c[1..]);
        }
      }
    }
  }

  lemma {:induction false} DropsWsAppend(a1: string, b1: string, a2: string, b2: string)
    requires DropsWs(a1, b1) && DropsWs(a2, b2)
    ensures DropsWs(a1 + a2, b1 + b2)
    decreases |b1|
  {
    if |b1| == 0 {
      assert b1 + b2 == b2 && a1 + a2 == a2;
    } else {
      assert (b1 + b2)[1..] == b1[1..] + b2;
      if |a1| > 0 && a1[0] == b1[0] && DropsWs(a1[1..], b1[1..]) {
        DropsWsAppend(a1[1..], b1[1..], a2, b2);
        assert (a1 + a2)[1..] == a1[1..] + a2;
      } else {
        DropsWsAppend(a1, b1[1..], a2, b2);
      }
    }
  }

  /** Deleting whitespace keeps the non-whitespace characters in order and never lengthens. */
  lemma {:induction false} DropsWsKeepsNonWs(a: string, b: string)
    requires DropsWs(a, b)
    ensures NonWs(a) == NonWs(b) && |a| <= |b|
    decreases |b|
  {
    if |b| > 0 {
      if |a| > 0 && a[0] == b[0] && DropsWs(a[1..], b[1..]) {
        DropsWsKeepsNonWs(a[1..], b[1..]);
      } else {
        DropsWsKeepsNonWs(a, b[1..]);
      }
    }
  }

  /** A whitespace run followed by a character drops to that character. */
  lemma {:induction false} DropsRun(s: string, run: nat)
    requires run < |s| && forall k :: 0 <= k < run ==> IsWs(s[k])
    ensures DropsWs(s[run..run + 1], s[..run + 1])
    decreases run
  {
    if run == 0 {
      DropsWsRefl(s[..1]);
      assert s[0..1] == s[..1];
    } else {
      DropsRun(s[1..], run - 1);
      assert s[1..][run - 1..run] == s[run..run + 1];
      assert s[1..][..run] == s[..run + 1][1..];
    }
  }

  /** A match turns into its two end characters: the whitespace run between them is
      deleted, and the rest is whatever the scan makes of it. */
  lemma MatchDropsRun(s: string, p1: char -> bool, p2: char -> bool, rest': string)
    requires MatchGap(s, p1, p2)
    requires DropsWs(rest', s[2 + WsRunLen(s[1..])..])
    ensures DropsWs([s[0]] + "" + [s[1 + WsRunLen(s[1..])]] + rest', s)
  {
    var run := WsRunLen(s[1..]);
    var rest := s[2 + run..];
    DropsRun(s[1..], run);
    assert s[1..][run..run + 1] == [s[1 + run]];
    assert s[1..][..run + 1] == s[1..2 + run];
    DropsWsRefl([s[0]]);
    DropsWsAppend([s[0]], [s[0]], [s[1 + run]], s[1..2 + run]);
    assert [s[0]] + s[1..2 + run] == s[..2 + run];
    DropsWsAppend([s[0]] + [s[1 + run]], s[..2 + run], rest', rest);
    assert s[..2 + run] + rest == s;
    assert [s[0]] + "" + [s[1 + run]] == [s[0]] + [s[1 + run]];
  }

  /** The scan with an empty `mid` only deletes whitespace, and it deletes something
      exactly when some occurrence exists. */
  lemma {:induction false} SubGapDeletes(s: string, p1: char -> bool, p2: char -> bool)
    ensures DropsWs(SubGap(s, p1, p2, ""), s)
    ensures |SubGap(s, p1, p2, "")| <= |s|
    ensures |SubGap(s, p1, p2, "")| == |s| ==> SubGap(s, p1, p2, "") == s && NoGap(s, p1, p2)
    decreases |s|
  {
    if |s| > 0 {
      if MatchGap(s, p1, p2) {
        var run := WsRunLen(s[1..]);
        var rest := s[2 + run..];
        SubGapDeletes(rest, p1, p2);
        MatchDropsRun(s, p1, p2, SubGap(rest, p1, p2, ""));
      } else {
        SubGapDeletes(s[1..], p1, p2);
        DropsWsRefl([s[0]]);
        DropsWsAppend([s[0]], [s[0]], SubGap(s[1..], p1, p2, ""), s[1..]);
        assert [s[0]] + s[1..] == s;
        if |SubGap(s, p1, p2, "")| == |s| {
          forall k | 0 <= k < |s| ensures !MatchGap(s[k..], p1, p2) {
            if k > 0 {
              assert s[k..] == s[1..][k - 1..];
            }
          }
        }
      }
    }
  }

  /** Without an occurrence the scan copies its input. */
  lemma {:induction false} SubGapNoMatch(s: string, p1: char -> bool, p2: char -> bool, mid: string)
    requires NoGap(s, p1, p2)
    ensures SubGap(s, p1, p2, mid) == s
    decreases |s|
  {
    if |s| > 0 {
      assert s[0..] == s;
      assert NoGap(s[1..], p1, p2) by {
        forall k | 0 <= k < |s[1..]| ensures !MatchGap(s[1..][k..], p1, p2) {
          assert s[1..][k..] == s[k + 1..];
        }
      }
      SubGapNoMatch(s[1..], p1, p2, mid);
    }
  }

  /** One pass of the letter-space loop: `RE_MM_LETTER_SPACE.sub(r'\1\2', text)`. */
  function LetterPass(text: string): string
  {
    SubGap(text, IsMyanmarLetter, IsMyanmarLetter, "")
  }

  /** The text the `while prev != text` loop ends with. */
  function LetterFixpoint(text: string): string
    decreases |text|
  {
    var next := LetterPass(text);
    SubGapDeletes(text, IsMyanmarLetter, IsMyanmarLetter);
    if next == text then text else LetterFixpoint(next)
  }

  /** At the fixpoint no Myanmar letter, whitespace run, Myanmar letter remains; only
      whitespace was deleted; and a second run changes nothing. */
  lemma {:induction false} LetterFixpointProps(text: string)
    ensures NoGap(LetterFixpoint(text), IsMyanmarLetter, IsMyanmarLetter)
    ensures DropsWs(LetterFixpoint(text), text)
    ensures LetterPass(LetterFixpoint(text)) == LetterFixpoint(text)
    ensures LetterFixpoint(LetterFixpoint(text)) == LetterFixpoint(text)
    decreases |text|
  {
    var next := LetterPass(text);
    SubGapDeletes(text, IsMyanmarLetter, IsMyanmarLetter);
    if next == text {
      DropsWsRefl(text);
    } else {
      LetterFixpointProps(next);
      DropsWsTrans(LetterFixpoint(next), next, text);
    }
  }

  /** `PROTECT_SPACES`: digit-digit, digit-letter, letter-digit, in this order. */
  const ProtectPatterns: seq<(char -> bool, char -> bool)> :=
    [(IsMyanmarDigit, IsMyanmarDigit), (IsMyanmarDigit, IsMyanmarLetter), (IsMyanmarLetter, IsMyanmarDigit)]

  /** The protect passes applied in order, each writing ☃ in place of its gaps. */
  function Protect(text: string, patterns: seq<(char -> bool, char -> bool)>): string
    decreases |patterns|
  {
    if |patterns| == 0 then text
    else Protect(SubGap(text, patterns[0].0, patterns[0].1, [Snowman]), patterns[1..])
  }

  /** `remove_myanmar_spaces(text, preserve_digits)`. */
  method RemoveMyanmarSpaces(text: string, preserveDigits: bool) returns (out: string)
    ensures preserveDigits ==>
      out == Replace(LetterFixpoint(Protect(text, ProtectPatterns)), [Snowman], " ")
    ensures !preserveDigits ==> out == LetterFixpoint(text)
  {
    out := text;
    if preserveDigits {
      var k := 0;
      while k < |ProtectPatterns|
        invariant 0 <= k <= |ProtectPatterns|
        invariant Protect(text, ProtectPatterns) == Protect(out, ProtectPatterns[k..])
      {
        assert ProtectPatterns[k..][1..] == ProtectPatterns[k + 1..];
        var pattern := ProtectPatterns[k];
        out := SubGap(out, pattern.0, pattern.1, [Snowman]);
        k := k + 1;
      }
    }
    ghost var start := out;
    var prev: Option<string> := None;
    while prev != Some(out)
      invariant prev.None? ==> out == start
      invariant prev.Some? ==> out == LetterPass(prev.value)
      invariant LetterFixpoint(start) == (if prev.Some? then LetterFixpoint(prev.value) else LetterFixpoint(out))
      decreases if prev.None? then |out| + 1 else |prev.value|
    {
      if prev.Some? {
        SubGapDeletes(prev.value, IsMyanmarLetter, IsMyanmarLetter);
      }
      prev := Some(out);
      out := LetterPass(out);
    }
    if preserveDigits {
      out := Replace(out, [Snowman], " ");
    }
  }

  /** `my` mode: the result is the input with some whitespace deleted (so every other
      character is kept, in order), and no Myanmar letter, whitespace, Myanmar letter
      occurrence remains. */
  lemma MyModeRemovesOnlyWs(text: string)
    ensures DropsWs(LetterFixpoint(text), text)
    ensures NonWs(LetterFixpoint(text)) == NonWs(text)
    ensures NoGap(LetterFixpoint(text), IsMyanmarLetter, IsMyanmarLetter)
  {
    LetterFixpointProps(text);
    DropsWsKeepsNonWs(LetterFixpoint(text), text);
  }

  /** Replacing a single character by a single character maps it pointwise. */
  lemma {:induction false} ReplaceCharMaps(s: string, c: char, d: char)
    ensures |Replace(s, [c], [d])| == |s|
    ensures forall k :: 0 <= k < |s| ==> Replace(s, [c], [d])[k] == if s[k] == c then d else s[k]
    decreases |s|
  {
    if |s| > 0 {
      ReplaceCharMaps(s[1..], c, d);
      var r := Replace(s, [c], [d]);
      if s[..1] == [c] {
        assert s[|[c]|..] == s[1..];
        assert r == [d] + Replace(s[1..], [c], [d]);
      } else {
        assert r == [s[0]] + Replace(s[1..], [c], [d]);
      }
    }
  }

  /** The restoring step turns every ☃ into a space, whether written by a protect pass or
      already in the input, and changes nothing else. */
  lemma RestoreSnowman(s: string)
    ensures |Replace(s, [Snowman], " ")| == |s| && Snowman !in Replace(s, [Snowman], " ")
    ensures forall k :: 0 <= k < |s| ==>
      Replace(s, [Snowman], " ")[k] == if s[k] == Snowman then ' ' else s[k]
  {
    ReplaceCharMaps(s, Snowman, ' ');
    var r := Replace(s, [Snowman], " ");
    forall k | 0 <= k < |r| ensures r[k] != Snowman {
      assert r[k] == if s[k] == Snowman then ' ' else s[k];
    }
  }

  /** The protect passes and the letter loop keep every ☃: the letter loop deletes only
      whitespace, which ☃ is not. */
  lemma ProtectedGapsSurvive(text: string)
    ensures NonWs(LetterFixpoint(text)) == NonWs(text)
    ensures Snowman in text <==> Snowman in LetterFixpoint(text)
  {
    MyModeRemovesOnlyWs(text);
    LetterIsNotWs(Snowman);
    NonWsMembers(text, Snowman);
    NonWsMembers(LetterFixpoint(text), Snowman);
  }

  /** The gaps a protect pass can match: a Myanmar digit next to a Myanmar letter or digit,
      in either order (the digit class lies inside the letter class). */
  predicate ProtectedPair(x: char, y: char)
  {
    (IsMyanmarDigit(x) && IsMyanmarLetter(y)) || (IsMyanmarLetter(x) && IsMyanmarDigit(y))
  }

  /** `a` is `b` with some whitespace characters deleted and some gaps marked. A gap is a
      non-whitespace `x`, a maximal whitespace run and a `y` with `ProtectedPair(x, y)`;
      marking it replaces the whole run by the one character `mark`. */
  ghost predicate MarksGaps(a: string, b: string, mark: char)
    decreases |b|
  {
    if |b| == 0 then a == ""
    else
      || (|a| > 0 && a[0] == b[0] && MarksGaps(a[1..], b[1..], mark))
      || (IsWs(b[0]) && MarksGaps(a, b[1..], mark))
      || (var run := WsRunLen(b[1..]);
          && !IsWs(b[0]) && run >= 1 && 1 + run < |b| && ProtectedPair(b[0], b[1 + run])
          && |a| >= 2 && a[0] == b[0] && a[1] == mark && MarksGaps(a[2..], b[1 + run..], mark))
  }

  /** Deleting whitespace is marking no gap. */
  lemma {:induction false} DropsWsMarks(a: string, b: string, mark: char)
    requires DropsWs(a, b)
    ensures MarksGaps(a, b, mark)
    decreases |b|
  {
    if |b| > 0 {
      if |a| > 0 && a[0] == b[0] && DropsWs(a[1..], b[1..]) {
        DropsWsMarks(a[1..], b[1..], mark);
      } else {
        DropsWsMarks(a, b[1..], mark);
      }
    }
  }

  /** With a whitespace mark, the non-whitespace characters are kept in order and the text
      does not grow. */
  lemma {:induction false} MarksGapsKeepsNonWs(a: string, b: string, mark: char)
    requires IsWs(mark) && MarksGaps(a, b, mark)
    ensures NonWs(a) == NonWs(b) && |a| <= |b|
    decreases |b|
  {
    if |b| > 0 {
      if |a| > 0 && a[0] == b[0] && MarksGaps(a[1..], b[1..], mark) {
        MarksGapsKeepsNonWs(a[1..], b[1..], mark);
      } else if IsWs(b[0]) && MarksGaps(a, b[1..], mark) {
        MarksGapsKeepsNonWs(a, b[1..], mark);
      } else {
        var run := WsRunLen(b[1..]);
        MarksGapsKeepsNonWs(a[2..], b[1 + run..], mark);
        assert a[1..][1..] == a[2..];
        assert b[1..][run..] == b[1 + run..];
        NonWsLStrip(b[1..]);
      }
    }
  }

  /** The first character of `b`, when it is not whitespace, is the first character of `a`. */
  lemma FirstNonWs(a: string, b: string, mark: char)
    requires MarksGaps(a, b, mark) && |b| > 0 && !IsWs(b[0])
    ensures |a| > 0 && a[0] == b[0]
  {
  }

  /** A whitespace run at the start of `b` followed by a non-whitespace character comes
      from a whitespace run at least as long at the start of `c`, followed by the same
      character. */
  lemma {:induction false} RunAlign(b: string, c: string, run: nat, mark: char) returns (m: nat)
    requires MarksGaps(b, c, mark)
    requires run < |b| && !IsWs(b[run]) && forall k :: 0 <= k < run ==> IsWs(b[k])
    ensures run <= m < |c| && c[m] == b[run] && WsRunLen(c) == m
    ensures MarksGaps(b[run..], c[m..], mark)
    decreases |c|
  {
    if IsWs(c[0]) && MarksGaps(b, c[1..], mark) {
      var m' := RunAlign(b, c[1..], run, mark);
      m := m' + 1;
      assert c[1..][m'..] == c[m..];
    } else if run == 0 {
      m := 0;
      assert b[0..] == b && c[0..] == c;
    } else {
      assert MarksGaps(b[1..], c[1..], mark);
      var m' := RunAlign(b[1..], c[1..], run - 1, mark);
      m := m' + 1;
      assert b[1..][run - 1..] == b[run..];
      assert c[1..][m'..] == c[m..];
    }
  }

  /** Marking gaps twice with a non-whitespace mark is marking gaps once: a later pass sees
      the gaps of the original text, with some whitespace deleted. */
  lemma {:induction false} MarksGapsTrans(a: string, b: string, c: string, mark: char)
    requires !IsWs(mark) && MarksGaps(a, b, mark) && MarksGaps(b, c, mark)
    ensures MarksGaps(a, c, mark)
    decreases |c|
  {
    if |c| > 0 {
      if IsWs(c[0]) && MarksGaps(b, c[1..], mark) {
        MarksGapsTrans(a, b, c[1..], mark);
      } else if |b| > 0 && b[0] == c[0] && MarksGaps(b[1..], c[1..], mark) {
        if |a| > 0 && a[0] == b[0] && MarksGaps(a[1..], b[1..], mark) {
          MarksGapsTrans(a[1..], b[1..], c[1..], mark);
        } else if IsWs(b[0]) && MarksGaps(a, b[1..], mark) {
          MarksGapsTrans(a, b[1..], c[1..], mark);
        } else {
          var run := WsRunLen(b[1..]);
          var m := RunAlign(b[1..], c[1..], run, mark);
          assert b[1..][run..] == b[1 + run..];
          assert c[1..][m..] == c[1 + m..];
          MarksGapsTrans(a[2..], b[1 + run..], c[1 + m..], mark);
        }
      } else {
        var run := WsRunLen(c[1..]);
        assert b[1..][1..] == b[2..];
        FirstNonWs(b[2..], c[1 + run..], mark);
        assert MarksGaps(a[1..], b[1..], mark);
        assert a[1..][1..] == a[2..];
        assert MarksGaps(a[2..], b[2..], mark);
        MarksGapsTrans(a[2..], b[2..], c[1 + run..], mark);
      }
    }
  }

  /** A protect pass marks the gaps it matches with ☃ and copies everything else. */
  lemma {:induction false} SubGapMarks(s: string, p1: char -> bool, p2: char -> bool)
    requires forall x, y :: p1(x) && p2(y) ==> ProtectedPair(x, y)
    ensures MarksGaps(SubGap(s, p1, p2, [Snowman]), s, Snowman)
    decreases |s|
  {
    if |s| > 0 {
      var r := SubGap(s, p1, p2, [Snowman]);
      if MatchGap(s, p1, p2) {
        var run := WsRunLen(s[1..]);
        var rest := SubGap(s[2 + run..], p1, p2, [Snowman]);
        SubGapMarks(s[2 + run..], p1, p2);
        assert ProtectedPair(s[0], s[1 + run]);
        DigitIsLetter(s[0]);
        LetterIsNotWs(s[0]);
        assert r == [s[0], Snowman, s[1 + run]] + rest;
        assert r[2..][1..] == rest;
        assert s[1 + run..][1..] == s[2 + run..];
        assert MarksGaps(r[2..], s[1 + run..], Snowman);
      } else {
        SubGapMarks(s[1..], p1, p2);
        assert r[1..] == SubGap(s[1..], p1, p2, [Snowman]);
      }
    }
  }

  /** The three protect passes together mark gaps with ☃. */
  lemma ProtectMarks(text: string)
    ensures MarksGaps(Protect(text, ProtectPatterns), text, Snowman)
  {
    LetterIsNotWs(Snowman);
    var t1 := SubGap(text, IsMyanmarDigit, IsMyanmarDigit, [Snowman]);
    var t2 := SubGap(t1, IsMyanmarDigit, IsMyanmarLetter, [Snowman]);
    var t3 := SubGap(t2, IsMyanmarLetter, IsMyanmarDigit, [Snowman]);
    SubGapMarks(text, IsMyanmarDigit, IsMyanmarDigit);
    SubGapMarks(t1, IsMyanmarDigit, IsMyanmarLetter);
    SubGapMarks(t2, IsMyanmarLetter, IsMyanmarDigit);
    MarksGapsTrans(t2, t1, text, Snowman);
    MarksGapsTrans(t3, t2, text, Snowman);
    var rest: seq<(char -> bool, char -> bool)> := ProtectPatterns[1..];
    assert ProtectPatterns[0] == (IsMyanmarDigit, IsMyanmarDigit);
    assert rest[0] == (IsMyanmarDigit, IsMyanmarLetter);
    assert rest[1..][0] == (IsMyanmarLetter, IsMyanmarDigit);
    assert |rest[1..][1..]| == 0;
    ProtectUnfold(text, ProtectPatterns);
    ProtectUnfold(t1, rest);
    ProtectUnfold(t2, rest[1..]);
  }

  /** Protecting and then running the letter loop marks gaps with ☃ and deletes only
      whitespace besides. */
  lemma ProtectedGapsMarked(text: string)
    ensures MarksGaps(LetterFixpoint(Protect(text, ProtectPatterns)), text, Snowman)
  {
    var p := Protect(text, ProtectPatterns);
    ProtectMarks(text);
    LetterFixpointProps(p);
    DropsWsMarks(LetterFixpoint(p), p, Snowman);
    LetterIsNotWs(Snowman);
    MarksGapsTrans(LetterFixpoint(p), p, text, Snowman);
  }

  /** Turning the marks into spaces, on a text without ☃ of its own. */
  lemma {:induction false} MarksRestore(a: string, r: string, b: string)
    requires MarksGaps(a, b, Snowman) && Snowman !in b
    requires |r| == |a| && forall k :: 0 <= k < |a| ==> r[k] == if a[k] == Snowman then ' ' else a[k]
    ensures MarksGaps(r, b, ' ')
    decreases |b|
  {
    if |b| > 0 {
      assert b[0] in b;
      if |a| > 0 && a[0] == b[0] && MarksGaps(a[1..], b[1..], Snowman) {
        MarksRestore(a[1..], r[1..], b[1..]);
      } else if IsWs(b[0]) && MarksGaps(a, b[1..], Snowman) {
        MarksRestore(a, r, b[1..]);
      } else {
        var run := WsRunLen(b[1..]);
        MarksRestore(a[2..], r[2..], b[1 + run..]);
        assert r[1..][1..] == r[2..];
      }
    }
  }

  /** `my_not_num` mode on a text without ☃: the result is the text with whitespace
      deleted, except that some gaps between a Myanmar digit and a Myanmar letter or digit
      (in either order) become one space; so every non-whitespace character is kept, in
      order, and the text does not grow. */
  lemma NotNumSpaces(text: string)
    requires Snowman !in text
    ensures MarksGaps(ProcessLine(text, "my_not_num"), text, ' ')
    ensures NonWs(ProcessLine(text, "my_not_num")) == NonWs(text)
    ensures |ProcessLine(text, "my_not_num")| <= |text|
  {
    var a := LetterFixpoint(Protect(text, ProtectPatterns));
    ProtectedGapsMarked(text);
    RestoreSnowman(a);
    MarksRestore(a, Replace(a, [Snowman], " "), text);
    MarksGapsKeepsNonWs(ProcessLine(text, "my_not_num"), text, ' ');
  }

  /** A text the letter pass leaves alone is its own fixpoint. */
  lemma FixpointOfFixed(t: string)
    requires LetterPass(t) == t
    ensures LetterFixpoint(t) == t
  {
  }

  /** A pass that changes the text is followed by another round. */
  lemma FixpointStep(t: string)
    requires LetterPass(t) != t
    ensures LetterFixpoint(t) == LetterFixpoint(LetterPass(t))
  {
  }

  lemma ProtectUnfold(t: string, patterns: seq<(char -> bool, char -> bool)>)
    requires |patterns| > 0
    ensures Protect(t, patterns) == Protect(SubGap(t, patterns[0].0, patterns[0].1, [Snowman]), patterns[1..])
  {
  }

  /** Two Myanmar digits separated by whitespace: `my` mode joins them (the digit class
      lies inside the letter class). */
  lemma DigitGapJoined(d1: char, gap: string, d2: char)
    requires IsMyanmarDigit(d1) && IsMyanmarDigit(d2)
    requires |gap| > 0 && forall k :: 0 <= k < |gap| ==> IsWs(gap[k])
    ensures LetterFixpoint([d1] + gap + [d2]) == [d1, d2]
  {
    DigitIsLetter(d1);
    DigitIsLetter(d2);
    var s := [d1] + gap + [d2];
    LetterGapJoined(d1, gap, d2);
    FixpointStep(s);
    LetterPairFixed(d1, d2);
  }

  /** One letter pass joins two letters across a whitespace gap. */
  lemma LetterGapJoined(d1: char, gap: string, d2: char)
    requires IsMyanmarLetter(d1) && IsMyanmarLetter(d2)
    requires |gap| > 0 && forall k :: 0 <= k < |gap| ==> IsWs(gap[k])
    ensures LetterPass([d1] + gap + [d2]) == [d1, d2] != [d1] + gap + [d2]
  {
    LetterIsNotWs(d1);
    LetterIsNotWs(d2);
    var s := [d1] + gap + [d2];
    GapCollapses(s, |gap|, IsMyanmarLetter, IsMyanmarLetter, "");
    assert |[d1, d2]| < |s|;
  }

  /** Two adjacent letters are left alone. */
  lemma LetterPairFixed(d1: char, d2: char)
    requires IsMyanmarLetter(d1) && IsMyanmarLetter(d2)
    ensures LetterFixpoint([d1, d2]) == [d1, d2]
  {
    LetterIsNotWs(d1);
    LetterIsNotWs(d2);
    var t := [d1, d2];
    NoGapWithoutWs(t, IsMyanmarLetter, IsMyanmarLetter);
    SubGapNoMatch(t, IsMyanmarLetter, IsMyanmarLetter, "");
    FixpointOfFixed(t);
  }

  /** `my_not_num` mode leaves exactly one space between the two digits. */
  lemma DigitGapKept(d1: char, gap: string, d2: char)
    requires IsMyanmarDigit(d1) && IsMyanmarDigit(d2)
    requires |gap| > 0 && forall k :: 0 <= k < |gap| ==> IsWs(gap[k])
    ensures Replace(LetterFixpoint(Protect([d1] + gap + [d2], ProtectPatterns)), [Snowman], " ") == [d1, ' ', d2]
  {
    DigitIsLetter(d1);
    DigitIsLetter(d2);
    var t := ProtectDigitGap(d1, gap, d2);
    UnspacedIsFixed(d1, d2);
    RestoreOne(d1, d2);
  }

  /** The digit-digit pass writes ☃ into the gap, and the other passes keep it. */
  lemma ProtectDigitGap(d1: char, gap: string, d2: char) returns (t: string)
    requires IsMyanmarDigit(d1) && IsMyanmarDigit(d2)
    requires |gap| > 0 && forall k :: 0 <= k < |gap| ==> IsWs(gap[k])
    ensures t == [d1, Snowman, d2] && Protect([d1] + gap + [d2], ProtectPatterns) == t
  {
    DigitIsLetter(d1);
    DigitIsLetter(d2);
    LetterIsNotWs(d1);
    LetterIsNotWs(d2);
    LetterIsNotWs(Snowman);
    var s := [d1] + gap + [d2];
    t := [d1, Snowman, d2];
    GapCollapses(s, |gap|, IsMyanmarDigit, IsMyanmarDigit, [Snowman]);
    assert ProtectPatterns[0] == (IsMyanmarDigit, IsMyanmarDigit);
    assert SubGap(s, IsMyanmarDigit, IsMyanmarDigit, [Snowman]) == t;
    ProtectUnfold(s, ProtectPatterns);
    ProtectRest(t);
  }

  /** A text `d1 ☃ d2` of letters has no whitespace, so the letter loop keeps it. */
  lemma UnspacedIsFixed(d1: char, d2: char)
    requires IsMyanmarLetter(d1) && IsMyanmarLetter(d2)
    ensures LetterFixpoint([d1, Snowman, d2]) == [d1, Snowman, d2]
  {
    LetterIsNotWs(d1);
    LetterIsNotWs(d2);
    LetterIsNotWs(Snowman);
    var t := [d1, Snowman, d2];
    NoGapWithoutWs(t, IsMyanmarLetter, IsMyanmarLetter);
    SubGapNoMatch(t, IsMyanmarLetter, IsMyanmarLetter, "");
    FixpointOfFixed(t);
  }

  lemma RestoreOne(d1: char, d2: char)
    requires IsMyanmarLetter(d1) && IsMyanmarLetter(d2)
    ensures Replace([d1, Snowman, d2], [Snowman], " ") == [d1, ' ', d2]
  {
    LetterIsNotWs(d1);
    LetterIsNotWs(d2);
    ReplaceCharMaps([d1, Snowman, d2], Snowman, ' ');
  }

  /** The second and third protect passes leave a text without whitespace alone. */
  lemma ProtectRest(t: string)
    requires forall k :: 0 <= k < |t| ==> !IsWs(t[k])
    ensures Protect(t, ProtectPatterns[1..]) == t
  {
    var rest: seq<(char -> bool, char -> bool)> := ProtectPatterns[1..];
    assert rest[0] == (IsMyanmarDigit, IsMyanmarLetter);
    assert rest[1..][0] == (IsMyanmarLetter, IsMyanmarDigit);
    assert |rest[1..][1..]| == 0;
    NoGapWithoutWs(t, IsMyanmarDigit, IsMyanmarLetter);
    SubGapNoMatch(t, IsMyanmarDigit, IsMyanmarLetter, [Snowman]);
    ProtectUnfold(t, rest);
    NoGapWithoutWs(t, IsMyanmarLetter, IsMyanmarDigit);
    SubGapNoMatch(t, IsMyanmarLetter, IsMyanmarDigit, [Snowman]);
    ProtectUnfold(t, rest[1..]);
  }

  /** `c` + whitespace run + `d`, and nothing after, becomes `c` + `mid` + `d`. */
  lemma GapCollapses(s: string, run: nat, p1: char -> bool, p2: char -> bool, mid: string)
    requires |s| == 2 + run && run >= 1 && p1(s[0]) && p2(s[1 + run]) && !IsWs(s[1 + run])
    requires forall k :: 1 <= k <= run ==> IsWs(s[k])
    ensures SubGap(s, p1, p2, mid) == [s[0]] + mid + [s[1 + run]]
  {
    GapMatches(s, run, p1, p2);
    assert s[2 + run..] == "";
  }

  /** `c` + whitespace run + `d` matches at the start. */
  lemma GapMatches(s: string, run: nat, p1: char -> bool, p2: char -> bool)
    requires 1 + run < |s| && run >= 1 && p1(s[0]) && p2(s[1 + run]) && !IsWs(s[1 + run])
    requires forall k :: 1 <= k <= run ==> IsWs(s[k])
    ensures WsRunLen(s[1..]) == run && MatchGap(s, p1, p2)
  {
    WsRunPrefix(s[1..], run);
  }

  lemma {:induction false} WsRunPrefix(s: string, run: nat)
    requires run < |s| && !IsWs(s[run]) && forall k :: 0 <= k < run ==> IsWs(s[k])
    ensures WsRunLen(s) == run
    decreases run
  {
    if run > 0 {
      WsRunPrefix(s[1..], run - 1);
    }
  }

  /** A text without whitespace has no gap. */
  lemma NoGapWithoutWs(s: string, p1: char -> bool, p2: char -> bool)
    requires forall k :: 0 <= k < |s| ==> !IsWs(s[k])
    ensures NoGap(s, p1, p2)
  {
    forall k | 0 <= k < |s| ensures !MatchGap(s[k..], p1, p2) {
      if |s[k..]| > 1 {
        assert s[k..][1..][0] == s[k + 1];
      }
    }
  }

  /** `process_lines`: each line loses its trailing newlines and is processed by the mode;
      an unknown mode raises `ValueError` when the first line is reached. */
  method ProcessLines(lines: seq<string>, mode: string) returns (r: Result<seq<string>, string>)
    ensures r.Failure? <==> |lines| > 0 && mode !in {"all", "my", "my_not_num"}
    ensures r.Success? ==> |r.value| == |lines|
    ensures r.Success? ==> forall k :: 0 <= k < |lines| ==>
      r.value[k] == ProcessLine(StripNewlines(lines[k]), mode)
  {
    if |lines| > 0 && mode !in {"all", "my", "my_not_num"} {
      return Failure("Unknown mode: " + mode);
    }
    var out: seq<string> := [];
    var k := 0;
    while k < |lines|
      invariant 0 <= k <= |lines| && |out| == k
      invariant forall m :: 0 <= m < k ==> out[m] == ProcessLine(StripNewlines(lines[m]), mode)
    {
      var processed := ProcessKnown(StripNewlines(lines[k]), mode);
      out := out + [processed];
      k := k + 1;
    }
    return Success(out);
  }

  /** The mode dispatch of `process_lines` for a known mode. */
  method ProcessKnown(line: string, mode: string) returns (processed: string)
    requires mode in {"all", "my", "my_not_num"}
    ensures processed == ProcessLine(line, mode)
  {
    if mode == "all" {
      processed := RemoveAllSpaces(line);
    } else if mode == "my" {
      processed := RemoveMyanmarSpaces(line, false);
    } else {
      processed := RemoveMyanmarSpaces(line, true);
    }
  }

  /** `line.rstrip('\n')`: every trailing newline goes. */
  function StripNewlines(line: string): (r: string)
    ensures |r| <= |line| && r == line[..|r|] && (|r| > 0 ==> r[|r| - 1] != '\n')
    ensures forall k :: |r| <= k < |line| ==> line[k] == '\n'
  {
    if |line| > 0 && line[|line| - 1] == '\n' then StripNewlines(line[..|line| - 1]) else line
  }

  /** The result of a known mode on one line. */
  function ProcessLine(line: string, mode: string): string
  {
    if mode == "all" then RemoveAllSpaces(line)
    else if mode == "my" then LetterFixpoint(line)
    else if mode == "my_not_num" then Replace(LetterFixpoint(Protect(line, ProtectPatterns)), [Snowman], " ")
    else line
  }

  /** `_preprocess_text` of the segmenter: no mode (or an empty one) and an unknown mode
      leave the text unchanged; the known modes are those of the tool. */
  method PreprocessText(text: string, mode: Option<string>) returns (out: string)
    ensures mode.None? || mode == Some("") ==> out == text
    ensures mode.Some? ==> out == ProcessLine(text, mode.value)
  {
    if mode.None? || mode.value == "" {
      return text;
    }
    if mode.value == "all" {
      out := RemoveAllSpaces(text);
    } else if mode.value == "my" {
      out := RemoveMyanmarSpaces(text, false);
    } else if mode.value == "my_not_num" {
      out := RemoveMyanmarSpaces(text, true);
    } else {
      out := text;
    }
  }
}
