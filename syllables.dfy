/**
 * The syllable breaker (`HybridDAGSegmenter.syllable_break`): after whitespace is
 * normalised, a `|` is inserted before every Myanmar consonant or section mark that is
 * not preceded by the subscript sign and not followed by the vowel killer or the
 * subscript sign; one leading `|` is dropped and the text is split on `|`.
 */
module Syllables {
  import opened Chars
  import opened Strings

  /** The break pattern matches the single character at index `k` of `t`. */
  predicate IsBoundary(t: string, k: int)
    requires 0 <= k < |t|
  {
    && (IsConsonant(t[k]) || IsSectionMark(t[k]))
    && !(k > 0 && t[k - 1] == Virama)
    && !(k + 1 < |t| && (t[k + 1] == Asat || t[k + 1] == Virama))
  }

  /** `break_pattern.sub(r'|\1', t)` restricted to the suffix starting at index `k`. */
  function MarkFrom(t: string, k: nat): string
    decreases |t| - k
  {
    if k >= |t| then ""
    else (if IsBoundary(t, k) then "|" else "") + [t[k]] + MarkFrom(t, k + 1)
  }

  /** One leading `|` removed, as `result[1:]` after `result.startswith('|')`. */
  function DropLeadingBar(m: string): string
  {
    if |m| > 0 && m[0] == '|' then m[1..] else m
  }

  /** `syllable_break` on text whose whitespace is already normalised. */
  function BreakNormalized(t: string): (r: seq<string>)
    ensures |r| > 0
  {
    SplitOn(DropLeadingBar(MarkFrom(t, 0)), '|')
  }

  /** `syllable_break(text)`. */
  function SyllableBreak(text: string): (r: seq<string>)
    ensures |r| > 0
  {
    BreakNormalized(Normalize(text))
  }

  /** The positions in `[lo, |t|)` where a syllable starts, in increasing order. */
  function Boundaries(t: string, lo: nat): (r: seq<nat>)
    ensures forall i :: 0 <= i < |r| ==> lo <= r[i] < |t| && IsBoundary(t, r[i])
    ensures forall i, j :: 0 <= i < j < |r| ==> r[i] < r[j]
    decreases |t| - lo
  {
    if lo >= |t| then []
    else if IsBoundary(t, lo) then [lo] + Boundaries(t, lo + 1)
    else Boundaries(t, lo + 1)
  }

  /** Every boundary position at or after `lo` is listed. */
  lemma {:induction false} BoundariesComplete(t: string, lo: nat, p: nat)
    requires lo <= p < |t| && IsBoundary(t, p)
    ensures p in Boundaries(t, lo)
    decreases |t| - lo
  {
    if lo < p {
      BoundariesComplete(t, lo + 1, p);
    }
  }

  /** Cut points inside `[0, |t|]`, non-decreasing. */
  ghost predicate IsCuts(t: string, cuts: seq<nat>)
  {
    && (forall i :: 0 <= i < |cuts| ==> cuts[i] <= |t|)
    && (forall i, j :: 0 <= i < j < |cuts| ==> cuts[i] < cuts[j])
  }

  /** The pieces `t[cuts[i]..cuts[i+1]]`: the reference definition of a segmentation. */
  ghost function Pieces(t: string, cuts: seq<nat>): (r: seq<string>)
    requires IsCuts(t, cuts)
    ensures |r| == if |cuts| < 2 then 0 else |cuts| - 1
    decreases |cuts|
  {
    if |cuts| < 2 then [] else [t[cuts[0]..cuts[1]]] + Pieces(t, cuts[1..])
  }

  lemma {:induction false} PiecesConcat(t: string, cuts: seq<nat>)
    requires IsCuts(t, cuts) && |cuts| > 0
    ensures Concat(Pieces(t, cuts)) == t[cuts[0]..cuts[|cuts| - 1]]
    decreases |cuts|
  {
    if |cuts| >= 2 {
      PiecesConcat(t, cuts[1..]);
      assert t[cuts[0]..cuts[|cuts| - 1]] == t[cuts[0]..cuts[1]] + t[cuts[1]..cuts[|cuts| - 1]];
    }
  }

  /** The syllables of `t[k..]` when one starts at `k`. */
  function SylFrom(t: string, k: nat): (r: seq<string>)
    requires k < |t|
    ensures |r| > 0
    decreases |t| - k
  {
    if k + 1 == |t| then [[t[k]]]
    else if IsBoundary(t, k + 1) then [[t[k]]] + SylFrom(t, k + 1)
    else var r := SylFrom(t, k + 1); [[t[k]] + r[0]] + r[1..]
  }

  lemma SplitOnCons(c: char, rest: string)
    requires c != '|'
    ensures SplitOn([c] + rest, '|') == [[c] + SplitOn(rest, '|')[0]] + SplitOn(rest, '|')[1..]
  {
    assert ([c] + rest)[1..] == rest;
  }

  lemma SplitOnBar(rest: string)
    ensures SplitOn("|" + rest, '|') == [""] + SplitOn(rest, '|')
  {
    assert ("|" + rest)[1..] == rest;
  }

  lemma {:induction false} SplitMarked(t: string, k: nat)
    requires k < |t| && '|' !in t
    ensures SplitOn([t[k]] + MarkFrom(t, k + 1), '|') == SylFrom(t, k)
    decreases |t| - k
  {
    var rest := MarkFrom(t, k + 1);
    SplitOnCons(t[k], rest);
    if k + 1 < |t| {
      SplitMarked(t, k + 1);
      var tail := [t[k + 1]] + MarkFrom(t, k + 2);
      if IsBoundary(t, k + 1) {
        assert rest == "|" + tail;
        SplitOnBar(tail);
        var r := SplitOn(rest, '|');
        assert r[0] == "" && r[1..] == SylFrom(t, k + 1);
        assert [t[k]] + r[0] == [t[k]];
      } else {
        assert rest == tail;
      }
    } else {
      assert rest == "";
      assert SplitOn(rest, '|') == [""];
      assert [t[k]] + "" == [t[k]];
    }
  }

  lemma {:induction false} CutsOfBoundaries(t: string, k: nat)
    requires k < |t|
    ensures IsCuts(t, [k] + Boundaries(t, k + 1) + [|t|])
  {
    var b := Boundaries(t, k + 1);
    var cuts := [k] + b + [|t|];
    forall i, j | 0 <= i < j < |cuts| ensures cuts[i] < cuts[j] {
      if i > 0 && j < |cuts| - 1 {
        assert cuts[i] == b[i - 1] && cuts[j] == b[j - 1];
      }
      if i > 0 {
        assert cuts[i] == b[i - 1] || i == |cuts| - 1;
      }
    }
  }

  lemma SliceCons(t: string, a: nat, b: nat)
    requires a < b <= |t|
    ensures t[a..b] == [t[a]] + t[a + 1..b]
  {
  }

  lemma {:induction false} SylFromPiecesAtBoundary(t: string, k: nat)
    requires k + 1 < |t| && IsBoundary(t, k + 1)
    requires SylFrom(t, k + 1) == Pieces(t, [k + 1] + Boundaries(t, k + 2) + [|t|])
    requires IsCuts(t, [k] + Boundaries(t, k + 1) + [|t|])
    ensures SylFrom(t, k) == Pieces(t, [k] + Boundaries(t, k + 1) + [|t|])
  {
    var inner := [k + 1] + Boundaries(t, k + 2) + [|t|];
    var cuts := [k] + Boundaries(t, k + 1) + [|t|];
    assert Boundaries(t, k + 1) == [k + 1] + Boundaries(t, k + 2);
    assert cuts == [k] + inner;
    assert cuts[1..] == inner;
    assert t[k..k + 1] == [t[k]];
  }

  lemma {:induction false} SylFromPiecesInside(t: string, k: nat)
    requires k + 1 < |t| && !IsBoundary(t, k + 1)
    requires SylFrom(t, k + 1) == Pieces(t, [k + 1] + Boundaries(t, k + 2) + [|t|])
    requires IsCuts(t, [k + 1] + Boundaries(t, k + 2) + [|t|])
    requires IsCuts(t, [k] + Boundaries(t, k + 1) + [|t|])
    ensures SylFrom(t, k) == Pieces(t, [k] + Boundaries(t, k + 1) + [|t|])
  {
    var b2 := Boundaries(t, k + 2);
    var inner := [k + 1] + b2 + [|t|];
    var cuts := [k] + b2 + [|t|];
    assert Boundaries(t, k + 1) == b2;
    var r := SylFrom(t, k + 1);
    assert cuts[1..] == inner[1..];
    var c := inner[1];
    assert cuts[1] == c;
    var tail := Pieces(t, inner[1..]);
    assert r == [t[k + 1..c]] + tail;
    assert r[1..] == tail;
    SliceCons(t, k, c);
    assert SylFrom(t, k) == [t[k..c]] + tail;
    assert Pieces(t, cuts) == [t[k..c]] + tail;
  }

  /** The recursive syllable builder agrees with cutting at the boundary positions. */
  lemma {:induction false} SylFromPieces(t: string, k: nat)
    requires k < |t|
    ensures IsCuts(t, [k] + Boundaries(t, k + 1) + [|t|])
    ensures SylFrom(t, k) == Pieces(t, [k] + Boundaries(t, k + 1) + [|t|])
    decreases |t| - k
  {
    CutsOfBoundaries(t, k);
    if k + 1 < |t| {
      var j := k + 1;
      SylFromPieces(t, j);
      SylFromPiecesStep(t, k);
    } else {
      SylFromPiecesLast(t, k);
    }
  }

  /** One step of `SylFromPieces`, from the syllables of `t[k + 1..]` to those of `t[k..]`. */
  lemma SylFromPiecesStep(t: string, k: nat)
    requires k + 1 < |t|
    requires SylFrom(t, k + 1) == Pieces(t, [k + 1] + Boundaries(t, k + 2) + [|t|])
    requires IsCuts(t, [k + 1] + Boundaries(t, k + 2) + [|t|])
    requires IsCuts(t, [k] + Boundaries(t, k + 1) + [|t|])
    ensures SylFrom(t, k) == Pieces(t, [k] + Boundaries(t, k + 1) + [|t|])
  {
    if IsBoundary(t, k + 1) {
      SylFromPiecesAtBoundary(t, k);
    } else {
      SylFromPiecesInside(t, k);
    }
  }

  /** The last character is the last syllable's end. */
  lemma SylFromPiecesLast(t: string, k: nat)
    requires k + 1 == |t|
    requires IsCuts(t, [k] + Boundaries(t, k + 1) + [|t|])
    ensures SylFrom(t, k) == Pieces(t, [k] + Boundaries(t, k + 1) + [|t|])
  {
    var cuts := [k] + Boundaries(t, k + 1) + [|t|];
    assert Boundaries(t, k + 1) == [];
    assert cuts == [k, |t|];
    assert t[k..k + 1] == [t[k]];
    assert Pieces(t, cuts) == [t[k..k + 1]] + Pieces(t, cuts[1..]);
  }

  /** Cutting at strictly increasing positions gives non-empty pieces. */
  lemma {:induction false} PiecesNonEmpty(t: string, cuts: seq<nat>)
    requires IsCuts(t, cuts)
    ensures forall i :: 0 <= i < |Pieces(t, cuts)| ==> Pieces(t, cuts)[i] != ""
    decreases |cuts|
  {
    if |cuts| >= 2 {
      PiecesNonEmpty(t, cuts[1..]);
      var p := Pieces(t, cuts);
      assert p == [t[cuts[0]..cuts[1]]] + Pieces(t, cuts[1..]);
      assert cuts[0] < cuts[1];
    }
  }

  lemma {:induction false} RemoveMarks(t: string, k: nat)
    requires k <= |t|
    ensures Remove(MarkFrom(t, k), '|') == Remove(t[k..], '|')
    decreases |t| - k
  {
    if k < |t| {
      RemoveMarks(t, k + 1);
      var tail := [t[k]] + MarkFrom(t, k + 1);
      assert tail[1..] == MarkFrom(t, k + 1);
      assert t[k..][1..] == t[k + 1..];
      if IsBoundary(t, k) {
        assert ("|" + tail)[1..] == tail;
      }
    }
  }

  /** Whatever the input, the syllables concatenate to the normalised text less its `|` characters. */
  lemma SyllablesConcat(text: string)
    ensures Concat(SyllableBreak(text)) == Remove(Normalize(text), '|')
  {
    var t := Normalize(text);
    var m := MarkFrom(t, 0);
    SplitOnConcat(DropLeadingBar(m), '|');
    RemoveMarks(t, 0);
    assert t[0..] == t;
    if |m| > 0 && m[0] == '|' {
      assert m == [m[0]] + m[1..];
    }
  }

  lemma {:induction false} BreakClean(t: string)
    requires '|' !in t && t != ""
    ensures BreakNormalized(t) == SylFrom(t, 0)
  {
    var m := MarkFrom(t, 0);
    var tail := [t[0]] + MarkFrom(t, 1);
    if IsBoundary(t, 0) {
      assert m == "|" + tail;
      assert m[1..] == tail;
    } else {
      assert m == tail;
    }
    assert DropLeadingBar(m) == tail;
    SplitMarked(t, 0);
  }

  lemma NormalizeKeepsBar(text: string)
    requires '|' !in text
    ensures '|' !in Normalize(text)
  {
    NonWsNormalize(text);
    NonWsMembers(text, '|');
    NonWsMembers(Normalize(text), '|');
  }

  /** For text without `|`: the syllables are exactly the pieces of the normalised text cut
      at its boundary positions after index 0 (so no leading empty syllable), and empty
      text gives the single empty syllable. */
  lemma SyllablesAtBoundaries(text: string)
    requires '|' !in text
    ensures Normalize(text) == "" ==> SyllableBreak(text) == [""]
    ensures Normalize(text) != "" ==>
      && IsCuts(Normalize(text), [0] + Boundaries(Normalize(text), 1) + [|Normalize(text)|])
      && SyllableBreak(text) == Pieces(Normalize(text), [0] + Boundaries(Normalize(text), 1) + [|Normalize(text)|])
  {
    var t := Normalize(text);
    NormalizeKeepsBar(text);
    if t != "" {
      BreakAtBoundaries(t);
    } else {
      BreakEmpty();
    }
  }

  lemma BreakEmpty()
    ensures BreakNormalized("") == [""]
  {
    assert MarkFrom("", 0) == "";
  }

  /** `SyllablesAtBoundaries` on normalised text. */
  lemma BreakAtBoundaries(t: string)
    requires '|' !in t && t != ""
    ensures IsCuts(t, [0] + Boundaries(t, 1) + [|t|])
    ensures BreakNormalized(t) == Pieces(t, [0] + Boundaries(t, 1) + [|t|])
  {
    var k := 0;
    BreakClean(t);
    SylFromPieces(t, k);
    assert k + 1 == 1;
  }

  /** For text without `|`: the syllables are non-empty (unless the text is blank) and
      concatenate to the normalised text. */
  lemma SyllablesRoundTrip(text: string)
    requires '|' !in text
    ensures Concat(SyllableBreak(text)) == Normalize(text)
    ensures Normalize(text) != "" ==> forall i :: 0 <= i < |SyllableBreak(text)| ==> SyllableBreak(text)[i] != ""
  {
    var t := Normalize(text);
    SyllablesAtBoundaries(text);
    if t != "" {
      var cuts := [0] + Boundaries(t, 1) + [|t|];
      PiecesConcat(t, cuts);
      PiecesNonEmpty(t, cuts);
      assert t[cuts[0]..cuts[|cuts| - 1]] == t;
    }
  }
}
