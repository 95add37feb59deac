/**
 * Counting for the segmentation evaluator: character-offset word boundaries, the boundary
 * set intersection, the two-pointer exact-word alignment, vocabulary overlap and the guarded
 * ratios built from them.
 */
module Evaluation {
  import opened Strings

  function Min(a: nat, b: nat): nat
  {
    if a <= b then a else b
  }

  /** The number of characters the words take when each is followed by `gap` more. */
  function Offset(ws: seq<string>, gap: nat): nat
  {
    if |ws| == 0 then 0 else |ws[0]| + gap + Offset(ws[1..], gap)
  }

  lemma {:induction false} OffsetAppend(ws: seq<string>, w: string, gap: nat)
    ensures Offset(ws + [w], gap) == Offset(ws, gap) + |w| + gap
  {
    if |ws| == 0 {
      assert ws + [w] == [w];
      assert [w][1..] == [];
    } else {
      assert (ws + [w])[1..] == ws[1..] + [w];
      OffsetAppend(ws[1..], w, gap);
    }
  }

  /** Without separators the offset is the length of the joined words. */
  lemma {:induction false} OffsetUnspaced(ws: seq<string>)
    ensures Offset(ws, 0) == |Concat(ws)|
  {
    if |ws| > 0 {
      OffsetUnspaced(ws[1..]);
    }
  }

  /** The `(start, end)` pair of every word, starting at `pos`, each word followed by `gap`
      separator characters. */
  function Spans(ws: seq<string>, gap: nat, pos: nat): (r: seq<(nat, nat)>)
    ensures |r| == |ws|
  {
    if |ws| == 0 then [] else [(pos, pos + |ws[0]|)] + Spans(ws[1..], gap, pos + |ws[0]| + gap)
  }

  /** The pair of word `k` starts after the words before it. */
  lemma {:induction false} SpanAt(ws: seq<string>, gap: nat, pos: nat, k: nat)
    requires k < |ws|
    ensures Spans(ws, gap, pos)[k] == (pos + Offset(ws[..k], gap), pos + Offset(ws[..k], gap) + |ws[k]|)
    decreases k
  {
    if k > 0 {
      SpanAt(ws[1..], gap, pos + |ws[0]| + gap, k - 1);
      assert ws[..k][1..] == ws[1..][..k - 1];
    }
  }

  /** The shape of the pairs: the first starts at `pos`, each covers its word, and the next
      one starts `gap` after the previous end. */
  lemma SpansShape(ws: seq<string>, gap: nat, pos: nat)
    ensures |ws| > 0 ==> Spans(ws, gap, pos)[0].0 == pos
    ensures forall k :: 0 <= k < |ws| ==> Spans(ws, gap, pos)[k].1 == Spans(ws, gap, pos)[k].0 + |ws[k]|
    ensures forall k :: 0 < k < |ws| ==> Spans(ws, gap, pos)[k].0 == Spans(ws, gap, pos)[k - 1].1 + gap
  {
    var r := Spans(ws, gap, pos);
    forall k | 0 <= k < |ws| ensures r[k].1 == r[k].0 + |ws[k]| {
      SpanAt(ws, gap, pos, k);
    }
    forall k | 0 < k < |ws| ensures r[k].0 == r[k - 1].1 + gap {
      SpanAt(ws, gap, pos, k);
      SpanAt(ws, gap, pos, k - 1);
      assert ws[..k] == ws[..k - 1] + [ws[k - 1]];
      OffsetAppend(ws[..k - 1], ws[k - 1], gap);
    }
  }

  /** With non-empty words the starts strictly increase, so all pairs differ. */
  lemma SpansDistinct(ws: seq<string>, gap: nat, pos: nat)
    requires forall k :: 0 <= k < |ws| ==> |ws[k]| > 0
    ensures forall i, j :: 0 <= i < j < |ws| ==> Spans(ws, gap, pos)[i].0 < Spans(ws, gap, pos)[j].0
    ensures forall i, j :: 0 <= i < j < |ws| ==> Spans(ws, gap, pos)[i] != Spans(ws, gap, pos)[j]
  {
    var r := Spans(ws, gap, pos);
    SpansShape(ws, gap, pos);
    forall i, j | 0 <= i < j < |ws| ensures r[i].0 < r[j].0 {
      StartsIncrease(ws, gap, pos, i, j);
    }
  }

  lemma {:induction false} StartsIncrease(ws: seq<string>, gap: nat, pos: nat, i: nat, j: nat)
    requires i < j < |ws| && forall k :: 0 <= k < |ws| ==> |ws[k]| > 0
    ensures Spans(ws, gap, pos)[i].0 < Spans(ws, gap, pos)[j].0
    decreases j - i
  {
    SpansShape(ws, gap, pos);
    if j > i + 1 {
      StartsIncrease(ws, gap, pos, i, j - 1);
    }
  }

  /** `get_word_boundaries(text)`: the words of `text.split()` and their pairs, each next
      start one past the previous end. */
  method GetWordBoundaries(text: string) returns (boundaries: seq<(nat, nat)>, words: seq<string>)
    ensures words == SplitWs(text)
    ensures boundaries == Spans(words, 1, 0)
  {
    words := SplitWs(text);
    boundaries := WordSpans(words);
  }

  /** The loop of `get_word_boundaries` over the words. */
  method WordSpans(words: seq<string>) returns (boundaries: seq<(nat, nat)>)
    ensures boundaries == Spans(words, 1, 0)
  {
    boundaries := [];
    var pos: nat := 0;
    var k := 0;
    assert words[0..] == words;
    while k < |words|
      invariant k <= |words|
      invariant boundaries + Spans(words[k..], 1, pos) == Spans(words, 1, 0)
    {
      var start: nat, end: nat := pos, pos + |words[k]|;
      SpansStep(words, k, pos, boundaries);
      boundaries := boundaries + [(start, end)];
      pos := end + 1;
      k := k + 1;
    }
    SpansDone(words, pos, boundaries);
  }

  lemma SpansDone(words: seq<string>, pos: nat, done: seq<(nat, nat)>)
    ensures done + Spans(words[|words|..], 1, pos) == done
  {
    assert words[|words|..] == [];
  }

  /** One iteration of the boundary loop: the pair of word `k` moves to the collected part. */
  lemma SpansStep(words: seq<string>, k: nat, pos: nat, done: seq<(nat, nat)>)
    requires k < |words|
    ensures done + Spans(words[k..], 1, pos)
      == (done + [(pos, pos + |words[k]|)]) + Spans(words[k + 1..], 1, pos + |words[k]| + 1)
  {
    assert words[k..][1..] == words[k + 1..];
  }

  /** The boundaries the evaluator computes: the pairs are one past the previous end, the
      first starts at 0, each covers its word, and they are pairwise distinct. */
  lemma WordBoundariesProps(text: string)
    ensures |Spans(SplitWs(text), 1, 0)| == |SplitWs(text)|
    ensures |SplitWs(text)| > 0 ==> Spans(SplitWs(text), 1, 0)[0].0 == 0
    ensures forall k :: 0 <= k < |SplitWs(text)| ==>
      Spans(SplitWs(text), 1, 0)[k].1 == Spans(SplitWs(text), 1, 0)[k].0 + |SplitWs(text)[k]|
    ensures forall k :: 0 < k < |SplitWs(text)| ==>
      Spans(SplitWs(text), 1, 0)[k].0 == Spans(SplitWs(text), 1, 0)[k - 1].1 + 1
    ensures forall i, j :: 0 <= i < j < |SplitWs(text)| ==>
      Spans(SplitWs(text), 1, 0)[i] != Spans(SplitWs(text), 1, 0)[j]
  {
    var ws := SplitWs(text);
    SplitWsWords(text);
    assert forall k :: 0 <= k < |ws| ==> |ws[k]| > 0 by {
      forall k | 0 <= k < |ws| ensures |ws[k]| > 0 {
        assert IsWord(ws[k]);
      }
    }
    SpansShape(ws, 1, 0);
    SpansDistinct(ws, 1, 0);
  }

  /** Boundaries measured in the text with its spaces removed: word `k` covers the
      characters of the joined words before it up to its own end. */
  function UnspacedBoundaries(text: string): (r: seq<(nat, nat)>)
    ensures |r| == |SplitWs(text)|
  {
    Spans(SplitWs(text), 0, 0)
  }

  /** Word `k` of the corrected boundaries covers exactly its characters of the joined text. */
  lemma UnspacedBoundaryAt(ws: seq<string>, k: nat)
    requires k < |ws|
    ensures Spans(ws, 0, 0)[k] == (|Concat(ws[..k])|, |Concat(ws[..k + 1])|)
  {
    SpanAt(ws, 0, 0, k);
    OffsetUnspaced(ws[..k]);
    assert ws[..k + 1] == ws[..k] + [ws[k]];
    ConcatAppend(ws[..k], [ws[k]]);
    ConcatSingle(ws[k]);
  }

  /** Two segmentations of `abc`: `ab c` and `a b c`. The word `c` is the same word of the
      same text in both, yet the pairs as written disagree, because each offset also
      counts the spaces before it and the two lines have different numbers of words; on the
      unspaced offsets both give `c` the pair `(2, 3)`. */
  lemma SpacedOffsetsDrift()
    ensures Spans(["ab", "c"], 1, 0) == [(0, 2), (3, 4)]
    ensures Spans(["a", "b", "c"], 1, 0) == [(0, 1), (2, 3), (4, 5)]
    ensures Elems(Spans(["ab", "c"], 1, 0)) * Elems(Spans(["a", "b", "c"], 1, 0)) == {}
    ensures (2, 3) in Elems(Spans(["ab", "c"], 0, 0)) * Elems(Spans(["a", "b", "c"], 0, 0))
  {
    assert ["ab", "c"][1..] == ["c"] && ["c"][1..] == [];
    assert ["a", "b", "c"][1..] == ["b", "c"] && ["b", "c"][1..] == ["c"];
    assert Spans(["ab", "c"], 0, 0) == [(0, 2), (2, 3)];
    assert Spans(["a", "b", "c"], 0, 0) == [(0, 1), (1, 2), (2, 3)];
  }

  /** The set of the elements of a sequence (`set(xs)`). */
  function Elems<T(!new)>(xs: seq<T>): set<T>
  {
    set x | x in xs
  }

  /** A sequence without repetitions has as many distinct elements as it is long. */
  lemma {:induction false} ElemsDistinct<T(!new)>(xs: seq<T>)
    requires forall i, j :: 0 <= i < j < |xs| ==> xs[i] != xs[j]
    ensures |Elems(xs)| == |xs|
  {
    if |xs| > 0 {
      assert forall i, j :: 0 <= i < j < |xs[1..]| ==> xs[1..][i] != xs[1..][j] by {
        forall i, j | 0 <= i < j < |xs[1..]| ensures xs[1..][i] != xs[1..][j] {
          assert xs[1..][i] == xs[i + 1] && xs[1..][j] == xs[j + 1];
        }
      }
      ElemsDistinct(xs[1..]);
      forall j | 0 <= j < |xs[1..]| ensures xs[1..][j] != xs[0] {
        assert xs[1..][j] == xs[j + 1];
      }
      assert xs[0] !in Elems(xs[1..]);
      assert Elems(xs) == {xs[0]} + Elems(xs[1..]) by {
        assert xs == [xs[0]] + xs[1..];
      }
    }
  }

  lemma {:induction false} SubsetCard<T>(a: set<T>, b: set<T>)
    requires a <= b
    ensures |a| <= |b|
    decreases |a|
  {
    if a != {} {
      var x :| x in a;
      SubsetCard(a - {x}, b - {x});
    }
  }

  /** Which arithmetic the evaluator uses: the code as written (offsets that count one
      space per word, and words compared without their offsets) or the corrected one
      (offsets in the text without its spaces, and words compared at equal offsets). */
  datatype Variant = AsWritten | Corrected

  /** The separator width that the boundary offsets count after each word. */
  function Gap(v: Variant): nat
  {
    if v.AsWritten? then 1 else 0
  }

  /** Boundary counts of one line pair: the common pairs, the reference's and the
      hypothesis's distinct pairs. */
  function BoundaryCounts(refWords: seq<string>, hypWords: seq<string>, v: Variant): (nat, nat, nat)
  {
    var r := Elems(Spans(refWords, Gap(v), 0));
    var h := Elems(Spans(hypWords, Gap(v), 0));
    (|r * h|, |r|, |h|)
  }

  /** The common pairs never outnumber either side, and each side has one pair per word. */
  lemma BoundaryCountsBounded(refWords: seq<string>, hypWords: seq<string>, v: Variant)
    requires NonEmptyWords(refWords) && NonEmptyWords(hypWords)
    ensures BoundaryCounts(refWords, hypWords, v).0 <= BoundaryCounts(refWords, hypWords, v).1
    ensures BoundaryCounts(refWords, hypWords, v).0 <= BoundaryCounts(refWords, hypWords, v).2
    ensures BoundaryCounts(refWords, hypWords, v).1 == |refWords|
    ensures BoundaryCounts(refWords, hypWords, v).2 == |hypWords|
  {
    var r := Elems(Spans(refWords, Gap(v), 0));
    var h := Elems(Spans(hypWords, Gap(v), 0));
    SubsetCard(r * h, r);
    SubsetCard(r * h, h);
    DistinctPairs(refWords, Gap(v));
    DistinctPairs(hypWords, Gap(v));
  }

  /** Non-empty words have pairwise different pairs, for any separator width. */
  lemma DistinctPairs(ws: seq<string>, gap: nat)
    requires NonEmptyWords(ws)
    ensures |Elems(Spans(ws, gap, 0))| == |ws|
  {
    SpansDistinct(ws, gap, 0);
    ElemsDistinct(Spans(ws, gap, 0));
  }

  /** The words of `text.split()` are never empty. */
  lemma SplitWsNonEmpty(text: string)
    ensures NonEmptyWords(SplitWs(text))
  {
    var ws := SplitWs(text);
    SplitWsWords(text);
    forall k | 0 <= k < |ws| ensures |ws[k]| > 0 {
      assert IsWord(ws[k]);
    }
  }

  /** The words the two-pointer loop counts as correct, from word `ri` of the reference and
      word `hi` of the hypothesis on. Positions are those of the source: the word lengths
      plus one per word already passed. Equal words count, and otherwise the side whose
      position is behind moves on (the hypothesis on a tie). */
  function Aligned(refWords: seq<string>, hypWords: seq<string>, ri: nat, hi: nat): seq<string>
    requires ri <= |refWords| && hi <= |hypWords|
    decreases |refWords| - ri + |hypWords| - hi
  {
    if ri == |refWords| || hi == |hypWords| then []
    else if refWords[ri] == hypWords[hi] then [refWords[ri]] + Aligned(refWords, hypWords, ri + 1, hi + 1)
    else if Offset(refWords[..ri], 1) < Offset(hypWords[..hi], 1) then Aligned(refWords, hypWords, ri + 1, hi)
    else Aligned(refWords, hypWords, ri, hi + 1)
  }

  /** The word-level loop of `calculate_metrics` for one line pair. */
  method AlignWords(refWords: seq<string>, hypWords: seq<string>) returns (matched: seq<string>)
    ensures matched == Aligned(refWords, hypWords, 0, 0)
  {
    matched := [];
    var refPos: nat, hypPos: nat := 0, 0;
    var refIdx: nat, hypIdx: nat := 0, 0;
    while refIdx < |refWords| && hypIdx < |hypWords|
      invariant refIdx <= |refWords| && hypIdx <= |hypWords|
      invariant refPos == Offset(refWords[..refIdx], 1) && hypPos == Offset(hypWords[..hypIdx], 1)
      invariant matched + Aligned(refWords, hypWords, refIdx, hypIdx) == Aligned(refWords, hypWords, 0, 0)
      decreases |refWords| - refIdx + |hypWords| - hypIdx
    {
      var refWord := refWords[refIdx];
      var hypWord := hypWords[hypIdx];
      assert refWords[..refIdx + 1] == refWords[..refIdx] + [refWord];
      assert hypWords[..hypIdx + 1] == hypWords[..hypIdx] + [hypWord];
      OffsetAppend(refWords[..refIdx], refWord, 1);
      OffsetAppend(hypWords[..hypIdx], hypWord, 1);
      if refWord == hypWord {
        matched := matched + [refWord];
        refPos := refPos + |refWord| + 1;
        hypPos := hypPos + |hypWord| + 1;
        refIdx := refIdx + 1;
        hypIdx := hypIdx + 1;
      } else if refPos < hypPos {
        refPos := refPos + |refWord| + 1;
        refIdx := refIdx + 1;
      } else {
        hypPos := hypPos + |hypWord| + 1;
        hypIdx := hypIdx + 1;
      }
    }
    assert matched + [] == matched;
  }

  /** `m` draws on the words of both `a` and `b` and is no longer than either. */
  ghost predicate DrawsOnBoth(m: seq<string>, a: seq<string>, b: seq<string>)
  {
    multiset(m) <= multiset(a) && multiset(m) <= multiset(b) && |m| <= Min(|a|, |b|)
  }

  lemma DrawsOnBothCons(w: string, m: seq<string>, a: seq<string>, b: seq<string>)
    requires DrawsOnBoth(m, a, b)
    ensures DrawsOnBoth([w] + m, [w] + a, [w] + b)
  {
  }

  lemma DrawsOnBothMoreRef(x: string, m: seq<string>, a: seq<string>, b: seq<string>)
    requires DrawsOnBoth(m, a, b)
    ensures DrawsOnBoth(m, [x] + a, b)
  {
  }

  lemma DrawsOnBothMoreHyp(x: string, m: seq<string>, a: seq<string>, b: seq<string>)
    requires DrawsOnBoth(m, a, b)
    ensures DrawsOnBoth(m, a, [x] + b)
  {
  }

  /** Every counted word is a word of both lines, used at most as often as either has it,
      so the count is at most the shorter line's word count. */
  lemma {:induction false} AlignedBounded(refWords: seq<string>, hypWords: seq<string>, ri: nat, hi: nat)
    requires ri <= |refWords| && hi <= |hypWords|
    ensures multiset(Aligned(refWords, hypWords, ri, hi)) <= multiset(refWords[ri..])
    ensures multiset(Aligned(refWords, hypWords, ri, hi)) <= multiset(hypWords[hi..])
    ensures |Aligned(refWords, hypWords, ri, hi)| <= Min(|refWords| - ri, |hypWords| - hi)
    decreases |refWords| - ri + |hypWords| - hi
  {
    AlignedDraws(refWords, hypWords, ri, hi);
  }

  lemma {:induction false} AlignedDraws(refWords: seq<string>, hypWords: seq<string>, ri: nat, hi: nat)
    requires ri <= |refWords| && hi <= |hypWords|
    ensures DrawsOnBoth(Aligned(refWords, hypWords, ri, hi), refWords[ri..], hypWords[hi..])
    decreases |refWords| - ri + |hypWords| - hi
  {
    if ri < |refWords| && hi < |hypWords| {
      var r := refWords[ri];
      var h := hypWords[hi];
      assert refWords[ri..] == [r] + refWords[ri + 1..];
      assert hypWords[hi..] == [h] + hypWords[hi + 1..];
      if r == h {
        AlignedDraws(refWords, hypWords, ri + 1, hi + 1);
        DrawsOnBothCons(r, Aligned(refWords, hypWords, ri + 1, hi + 1), refWords[ri + 1..], hypWords[hi + 1..]);
      } else if Offset(refWords[..ri], 1) < Offset(hypWords[..hi], 1) {
        AlignedDraws(refWords, hypWords, ri + 1, hi);
        DrawsOnBothMoreRef(r, Aligned(refWords, hypWords, ri + 1, hi), refWords[ri + 1..], hypWords[hi..]);
      } else {
        AlignedDraws(refWords, hypWords, ri, hi + 1);
        DrawsOnBothMoreHyp(h, Aligned(refWords, hypWords, ri, hi + 1), refWords[ri..], hypWords[hi + 1..]);
      }
    } else {
      assert Aligned(refWords, hypWords, ri, hi) == [];
    }
  }

  /** A hypothesis equal to the reference has every word counted. */
  lemma {:induction false} AlignedSelf(ws: seq<string>, i: nat)
    requires i <= |ws|
    ensures Aligned(ws, ws, i, i) == ws[i..]
    decreases |ws| - i
  {
    if i < |ws| {
      AlignedSelf(ws, i + 1);
      assert ws[i..] == [ws[i]] + ws[i + 1..];
    }
  }

  /** Two segmentations of `abcdef`, `a b c de f` and `abc de f`, share the words `de` and
      `f` at the same characters. The loop counts only `f`: the reference's positions run
      ahead by one per extra word, so the hypothesis moves past `de` before the reference
      reaches it. */
  lemma SpacedPositionsMissWord()
    ensures Aligned(["a", "b", "c", "de", "f"], ["abc", "de", "f"], 0, 0) == ["f"]
  {
    var r := ["a", "b", "c", "de", "f"];
    var h := ["abc", "de", "f"];
    assert r[..0] == [] && h[..0] == [] && h[..1] == ["abc"] && h[..2] == ["abc", "de"];
    assert r[..1] == ["a"] && r[..2] == ["a", "b"] && r[..3] == ["a", "b", "c"] && r[..4] == ["a", "b", "c", "de"];
    assert Offset(["abc"], 1) == 4 by { assert ["abc"][1..] == []; }
    assert Offset(["abc", "de"], 1) == 7 by { assert ["abc", "de"][1..] == ["de"] && ["de"][1..] == []; }
    assert Offset(["a"], 1) == 2 by { assert ["a"][1..] == []; }
    assert Offset(["a", "b"], 1) == 4 by { assert ["a", "b"][1..] == ["b"] && ["b"][1..] == []; }
    assert Offset(["a", "b", "c"], 1) == 6 by {
      assert ["a", "b", "c"][1..] == ["b", "c"] && ["b", "c"][1..] == ["c"] && ["c"][1..] == [];
    }
    assert Aligned(r, h, 5, 3) == [];
    assert Aligned(r, h, 4, 2) == ["f"];
    assert Aligned(r, h, 3, 2) == Aligned(r, h, 4, 2);
    assert Aligned(r, h, 2, 2) == Aligned(r, h, 3, 2);
    assert Aligned(r, h, 2, 1) == Aligned(r, h, 2, 2);
    assert Aligned(r, h, 1, 1) == Aligned(r, h, 2, 1);
    assert Aligned(r, h, 0, 1) == Aligned(r, h, 1, 1);
    assert Aligned(r, h, 0, 0) == Aligned(r, h, 0, 1);
  }

  /** Two segmentations of `aaa`, `a aa` and `aa a`, share no word at the same characters,
      yet the loop counts one: it compares the words but never the positions. */
  lemma EqualWordsElsewhereCounted()
    ensures Aligned(["a", "aa"], ["aa", "a"], 0, 0) == ["a"]
  {
    var r := ["a", "aa"];
    var h := ["aa", "a"];
    assert r[..0] == [] && h[..0] == [] && h[..1] == ["aa"];
    assert Offset(["aa"], 1) == 3 by { assert ["aa"][1..] == []; }
    assert Aligned(r, h, 1, 2) == [];
    assert Aligned(r, h, 0, 1) == ["a"] + Aligned(r, h, 1, 2);
  }

  /** The words with their start offsets in the text with its spaces removed. */
  function PosWords(ws: seq<string>, pos: nat): (r: seq<(nat, string)>)
    ensures |r| == |ws|
  {
    if |ws| == 0 then [] else [(pos, ws[0])] + PosWords(ws[1..], pos + |ws[0]|)
  }

  /** Every start in `PosWords(ws, pos)` is at least `pos`. */
  lemma {:induction false} PosWordsFrom(ws: seq<string>, pos: nat)
    ensures forall x :: x in Elems(PosWords(ws, pos)) ==> x.0 >= pos
  {
    if |ws| > 0 {
      PosWordsFrom(ws[1..], pos + |ws[0]|);
    }
  }

  /** The corrected word count: a hypothesis word counts when the reference has the same word
      at the same offset of the unspaced text; otherwise the side that starts earlier moves
      on (the hypothesis on a tie). */
  function AlignedUnspaced(refWords: seq<string>, hypWords: seq<string>, ri: nat, hi: nat): seq<string>
    requires ri <= |refWords| && hi <= |hypWords|
    decreases |refWords| - ri + |hypWords| - hi
  {
    if ri == |refWords| || hi == |hypWords| then []
    else
      var refPos := Offset(refWords[..ri], 0);
      var hypPos := Offset(hypWords[..hi], 0);
      if refPos == hypPos && refWords[ri] == hypWords[hi] then
        [refWords[ri]] + AlignedUnspaced(refWords, hypWords, ri + 1, hi + 1)
      else if refPos < hypPos then AlignedUnspaced(refWords, hypWords, ri + 1, hi)
      else AlignedUnspaced(refWords, hypWords, ri, hi + 1)
  }

  /** The word alignment with positions in the unspaced text and the positions compared. */
  method AlignWordsUnspaced(refWords: seq<string>, hypWords: seq<string>) returns (matched: seq<string>)
    ensures matched == AlignedUnspaced(refWords, hypWords, 0, 0)
  {
    matched := [];
    var refPos: nat, hypPos: nat := 0, 0;
    var refIdx: nat, hypIdx: nat := 0, 0;
    while refIdx < |refWords| && hypIdx < |hypWords|
      invariant refIdx <= |refWords| && hypIdx <= |hypWords|
      invariant refPos == Offset(refWords[..refIdx], 0) && hypPos == Offset(hypWords[..hypIdx], 0)
      invariant matched + AlignedUnspaced(refWords, hypWords, refIdx, hypIdx) == AlignedUnspaced(refWords, hypWords, 0, 0)
      decreases |refWords| - refIdx + |hypWords| - hypIdx
    {
      var refWord := refWords[refIdx];
      var hypWord := hypWords[hypIdx];
      assert refWords[..refIdx + 1] == refWords[..refIdx] + [refWord];
      assert hypWords[..hypIdx + 1] == hypWords[..hypIdx] + [hypWord];
      OffsetAppend(refWords[..refIdx], refWord, 0);
      OffsetAppend(hypWords[..hypIdx], hypWord, 0);
      if refPos == hypPos && refWord == hypWord {
        matched := matched + [refWord];
        refPos := refPos + |refWord|;
        hypPos := hypPos + |hypWord|;
        refIdx := refIdx + 1;
        hypIdx := hypIdx + 1;
      } else if refPos < hypPos {
        refPos := refPos + |refWord|;
        refIdx := refIdx + 1;
      } else {
        hypPos := hypPos + |hypWord|;
        hypIdx := hypIdx + 1;
      }
    }
    assert matched + [] == matched;
  }

  predicate NonEmptyWords(ws: seq<string>)
  {
    forall k :: 0 <= k < |ws| ==> |ws[k]| > 0
  }

  /** The corrected loop counts exactly the (offset, word) pairs both segmentations have. */
  lemma AlignedUnspacedCountsShared(refWords: seq<string>, hypWords: seq<string>)
    requires NonEmptyWords(refWords) && NonEmptyWords(hypWords)
    ensures |AlignedUnspaced(refWords, hypWords, 0, 0)| ==
      |Elems(PosWords(refWords, 0)) * Elems(PosWords(hypWords, 0))|
  {
    assert refWords[0..] == refWords && hypWords[0..] == hypWords;
    SharedFrom(refWords, hypWords, 0, 0);
  }

  lemma {:induction false} SharedFrom(refWords: seq<string>, hypWords: seq<string>, ri: nat, hi: nat)
    requires ri <= |refWords| && hi <= |hypWords|
    requires NonEmptyWords(refWords) && NonEmptyWords(hypWords)
    ensures |AlignedUnspaced(refWords, hypWords, ri, hi)| == |Remaining(refWords, ri) * Remaining(hypWords, hi)|
    decreases |refWords| - ri + |hypWords| - hi
  {
    if ri == |refWords| || hi == |hypWords| {
      assert refWords[ri..] == [] || hypWords[hi..] == [];
      assert Remaining(refWords, ri) * Remaining(hypWords, hi) == {};
    } else {
      var rx := Decompose(refWords, ri);
      var hx := Decompose(hypWords, hi);
      var rs', hs' := Remaining(refWords, ri + 1), Remaining(hypWords, hi + 1);
      if rx == hx {
        SharedFrom(refWords, hypWords, ri + 1, hi + 1);
        InterBoth(rx, rs', hs');
      } else if rx.0 < hx.0 {
        SharedFrom(refWords, hypWords, ri + 1, hi);
        assert rx !in Remaining(hypWords, hi);
        InterDrop(rx, rs', Remaining(hypWords, hi));
      } else {
        SharedFrom(refWords, hypWords, ri, hi + 1);
        assert hx !in Remaining(refWords, ri);
        InterDropRight(hx, Remaining(refWords, ri), hs');
      }
    }
  }

  /** The (offset, word) pairs of the words from `i` on. */
  function Remaining(ws: seq<string>, i: nat): set<(nat, string)>
    requires i <= |ws|
  {
    Elems(PosWords(ws[i..], Offset(ws[..i], 0)))
  }

  /** The pairs from `i` on are the pair of word `i` and those after it, which start later. */
  lemma Decompose(ws: seq<string>, i: nat) returns (x: (nat, string))
    requires i < |ws| && NonEmptyWords(ws)
    ensures x == (Offset(ws[..i], 0), ws[i])
    ensures Remaining(ws, i) == {x} + Remaining(ws, i + 1)
    ensures forall y :: y in Remaining(ws, i + 1) ==> y.0 > x.0
    ensures forall y :: y in Remaining(ws, i) ==> y.0 >= x.0
    ensures forall y :: y in Remaining(ws, i) && y.0 == x.0 ==> y == x
  {
    x := (Offset(ws[..i], 0), ws[i]);
    assert ws[..i + 1] == ws[..i] + [ws[i]];
    OffsetAppend(ws[..i], ws[i], 0);
    assert ws[i..][1..] == ws[i + 1..];
    assert |ws[i]| > 0;
    PosWordsFrom(ws[i + 1..], Offset(ws[..i + 1], 0));
  }

  lemma InterBoth<T>(x: T, a: set<T>, b: set<T>)
    requires x !in a
    ensures |({x} + a) * ({x} + b)| == 1 + |a * b|
  {
    assert ({x} + a) * ({x} + b) == {x} + a * b;
  }

  /** An element missing from `b` does not add to the intersection. */
  lemma InterDropRight<T>(x: T, a: set<T>, b: set<T>)
    requires x !in a
    ensures a * ({x} + b) == a * b
  {
  }

  lemma InterDrop<T>(x: T, a: set<T>, b: set<T>)
    requires x !in b
    ensures ({x} + a) * b == a * b
  {
  }

  /** On the examples above the corrected loop counts the shared `de` and `f`, and nothing
      for `a aa` against `aa a`. */
  lemma UnspacedAlignmentExamples()
    ensures AlignedUnspaced(["a", "b", "c", "de", "f"], ["abc", "de", "f"], 0, 0) == ["de", "f"]
    ensures AlignedUnspaced(["a", "aa"], ["aa", "a"], 0, 0) == []
  {
    UnspacedFirstExample();
    UnspacedSecondExample();
  }

  lemma UnspacedFirstExample()
    ensures AlignedUnspaced(["a", "b", "c", "de", "f"], ["abc", "de", "f"], 0, 0) == ["de", "f"]
  {
    var r := ["a", "b", "c", "de", "f"];
    var h := ["abc", "de", "f"];
    assert r[..0] == [] && h[..0] == [] && h[..1] == ["abc"] && h[..2] == ["abc", "de"];
    assert r[..1] == ["a"] && r[..2] == ["a", "b"] && r[..3] == ["a", "b", "c"] && r[..4] == ["a", "b", "c", "de"];
    assert Offset(["abc"], 0) == 3 by { assert ["abc"][1..] == []; }
    assert Offset(["abc", "de"], 0) == 5 by { assert ["abc", "de"][1..] == ["de"] && ["de"][1..] == []; }
    assert Offset(["a"], 0) == 1 by { assert ["a"][1..] == []; }
    assert Offset(["a", "b"], 0) == 2 by { assert ["a", "b"][1..] == ["b"] && ["b"][1..] == []; }
    assert Offset(["a", "b", "c"], 0) == 3 by {
      assert ["a", "b", "c"][1..] == ["b", "c"] && ["b", "c"][1..] == ["c"] && ["c"][1..] == [];
    }
    assert Offset(["a", "b", "c", "de"], 0) == 5 by {
      assert ["a", "b", "c", "de"][1..] == ["b", "c", "de"];
      assert Offset(["b", "c", "de"], 0) == 4 by {
        assert ["b", "c", "de"][1..] == ["c", "de"] && ["c", "de"][1..] == ["de"] && ["de"][1..] == [];
      }
    }
    assert AlignedUnspaced(r, h, 5, 3) == [];
    assert AlignedUnspaced(r, h, 4, 2) == ["f"];
    assert AlignedUnspaced(r, h, 3, 1) == ["de", "f"];
    assert AlignedUnspaced(r, h, 2, 1) == AlignedUnspaced(r, h, 3, 1);
    assert AlignedUnspaced(r, h, 1, 1) == AlignedUnspaced(r, h, 2, 1);
    assert AlignedUnspaced(r, h, 0, 1) == AlignedUnspaced(r, h, 1, 1);
    assert AlignedUnspaced(r, h, 0, 0) == AlignedUnspaced(r, h, 0, 1);
  }

  lemma UnspacedSecondExample()
    ensures AlignedUnspaced(["a", "aa"], ["aa", "a"], 0, 0) == []
  {
    var r2 := ["a", "aa"];
    var h2 := ["aa", "a"];
    assert r2[..0] == [] && h2[..0] == [] && h2[..1] == ["aa"] && r2[..1] == ["a"];
    assert Offset(["aa"], 0) == 2 by { assert ["aa"][1..] == []; }
    assert Offset(["a"], 0) == 1 by { assert ["a"][1..] == []; }
    assert AlignedUnspaced(r2, h2, 2, 1) == [];
    assert AlignedUnspaced(r2, h2, 1, 1) == AlignedUnspaced(r2, h2, 2, 1);
    assert AlignedUnspaced(r2, h2, 0, 1) == AlignedUnspaced(r2, h2, 1, 1);
    assert AlignedUnspaced(r2, h2, 0, 0) == AlignedUnspaced(r2, h2, 0, 1);
  }

  /** The corrected count never exceeds either line's word count and draws on both lines'
      words. */
  lemma {:induction false} AlignedUnspacedBounded(refWords: seq<string>, hypWords: seq<string>, ri: nat, hi: nat)
    requires ri <= |refWords| && hi <= |hypWords|
    ensures multiset(AlignedUnspaced(refWords, hypWords, ri, hi)) <= multiset(refWords[ri..])
    ensures multiset(AlignedUnspaced(refWords, hypWords, ri, hi)) <= multiset(hypWords[hi..])
    ensures |AlignedUnspaced(refWords, hypWords, ri, hi)| <= Min(|refWords| - ri, |hypWords| - hi)
  {
    AlignedUnspacedDraws(refWords, hypWords, ri, hi);
  }

  lemma {:induction false} AlignedUnspacedDraws(refWords: seq<string>, hypWords: seq<string>, ri: nat, hi: nat)
    requires ri <= |refWords| && hi <= |hypWords|
    ensures DrawsOnBoth(AlignedUnspaced(refWords, hypWords, ri, hi), refWords[ri..], hypWords[hi..])
    decreases |refWords| - ri + |hypWords| - hi
  {
    if ri < |refWords| && hi < |hypWords| {
      var r := refWords[ri];
      var h := hypWords[hi];
      assert refWords[ri..] == [r] + refWords[ri + 1..];
      assert hypWords[hi..] == [h] + hypWords[hi + 1..];
      var refPos := Offset(refWords[..ri], 0);
      var hypPos := Offset(hypWords[..hi], 0);
      if refPos == hypPos && r == h {
        AlignedUnspacedDraws(refWords, hypWords, ri + 1, hi + 1);
        DrawsOnBothCons(r, AlignedUnspaced(refWords, hypWords, ri + 1, hi + 1), refWords[ri + 1..], hypWords[hi + 1..]);
      } else if refPos < hypPos {
        AlignedUnspacedDraws(refWords, hypWords, ri + 1, hi);
        DrawsOnBothMoreRef(r, AlignedUnspaced(refWords, hypWords, ri + 1, hi), refWords[ri + 1..], hypWords[hi..]);
      } else {
        AlignedUnspacedDraws(refWords, hypWords, ri, hi + 1);
        DrawsOnBothMoreHyp(h, AlignedUnspaced(refWords, hypWords, ri, hi + 1), refWords[ri..], hypWords[hi + 1..]);
      }
    } else {
      assert AlignedUnspaced(refWords, hypWords, ri, hi) == [];
    }
  }

  /** The integer counters of `calculate_metrics`. */
  datatype Counts = Counts(
    refWords: nat, hypWords: nat, correct: nat,
    boundaryCorrect: nat, boundaryTotal: nat, boundaryPredicted: nat)

  function Add(a: Counts, b: Counts): Counts
  {
    Counts(a.refWords + b.refWords, a.hypWords + b.hypWords, a.correct + b.correct,
           a.boundaryCorrect + b.boundaryCorrect, a.boundaryTotal + b.boundaryTotal,
           a.boundaryPredicted + b.boundaryPredicted)
  }

  /** What one line pair contributes: its counters, the words counted correct, and the
      words of each side (for the vocabulary counters). */
  datatype LineStats = LineStats(counts: Counts, matched: seq<string>, refWords: seq<string>, hypWords: seq<string>)

  /** The words the word-level loop counts as correct. */
  function Alignment(refWords: seq<string>, hypWords: seq<string>, v: Variant): seq<string>
  {
    if v.AsWritten? then Aligned(refWords, hypWords, 0, 0) else AlignedUnspaced(refWords, hypWords, 0, 0)
  }

  /** The statistics of one line pair, from the words of its two sides. */
  function WordStats(refWords: seq<string>, hypWords: seq<string>, v: Variant): LineStats
  {
    var matched := Alignment(refWords, hypWords, v);
    var b := BoundaryCounts(refWords, hypWords, v);
    LineStats(Counts(|refWords|, |hypWords|, |matched|, b.0, b.1, b.2), matched, refWords, hypWords)
  }

  function LineStatsOf(refText: string, hypText: string, v: Variant): LineStats
  {
    WordStats(SplitWs(refText), SplitWs(hypText), v)
  }

  /** The line pair `a b c de f` against `abc de f`. As written, one word (`f`) and no
      boundary are shared; corrected, the words `de` and `f` and their two boundaries are. */
  lemma LineStatsExample()
    ensures WordStats(["a", "b", "c", "de", "f"], ["abc", "de", "f"], AsWritten).counts == Counts(5, 3, 1, 0, 5, 3)
    ensures WordStats(["a", "b", "c", "de", "f"], ["abc", "de", "f"], Corrected).counts == Counts(5, 3, 2, 2, 5, 3)
  {
    ExampleAsWritten();
    ExampleCorrected();
  }

  lemma ExampleAsWritten()
    ensures WordStats(["a", "b", "c", "de", "f"], ["abc", "de", "f"], AsWritten).counts == Counts(5, 3, 1, 0, 5, 3)
  {
    var r := ["a", "b", "c", "de", "f"];
    var h := ["abc", "de", "f"];
    SpacedPositionsMissWord();
    assert NonEmptyWords(r) && NonEmptyWords(h);
    BoundaryCountsBounded(r, h, AsWritten);
    ExampleSpans(1);
    assert Elems(Spans(r, 1, 0)) * Elems(Spans(h, 1, 0)) == {};
  }

  lemma ExampleCorrected()
    ensures WordStats(["a", "b", "c", "de", "f"], ["abc", "de", "f"], Corrected).counts == Counts(5, 3, 2, 2, 5, 3)
  {
    var r := ["a", "b", "c", "de", "f"];
    var h := ["abc", "de", "f"];
    UnspacedFirstExample();
    assert NonEmptyWords(r) && NonEmptyWords(h);
    BoundaryCountsBounded(r, h, Corrected);
    ExampleSharedUnspaced();
  }

  lemma ExampleSharedUnspaced()
    ensures |Elems(Spans(["a", "b", "c", "de", "f"], 0, 0)) * Elems(Spans(["abc", "de", "f"], 0, 0))| == 2
  {
    ExampleSpans(0);
    TwoShared(Spans(["a", "b", "c", "de", "f"], 0, 0), Spans(["abc", "de", "f"], 0, 0));
  }

  lemma TwoShared(rs: seq<(nat, nat)>, hs: seq<(nat, nat)>)
    requires rs == [(0, 1), (1, 2), (2, 3), (3, 5), (5, 6)] && hs == [(0, 3), (3, 5), (5, 6)]
    ensures |Elems(rs) * Elems(hs)| == 2
  {
    var shared := Elems(rs) * Elems(hs);
    assert rs[3] in shared && rs[4] in shared;
    forall x | x in shared ensures x == (3, 5) || x == (5, 6) {
      assert x in hs;
    }
    assert shared == {(3, 5), (5, 6)};
  }

  /** The pairs of the two example lines for separator width `gap`. */
  lemma ExampleSpans(gap: nat)
    ensures Spans(["a", "b", "c", "de", "f"], gap, 0)
      == [(0, 1), (1 + gap, 2 + gap), (2 + 2 * gap, 3 + 2 * gap), (3 + 3 * gap, 5 + 3 * gap), (5 + 4 * gap, 6 + 4 * gap)]
    ensures Spans(["abc", "de", "f"], gap, 0) == [(0, 3), (3 + gap, 5 + gap), (5 + 2 * gap, 6 + 2 * gap)]
  {
    assert ["f"][1..] == [];
    assert Spans(["f"], gap, 5 + 4 * gap) == [(5 + 4 * gap, 6 + 4 * gap)];
    assert ["de", "f"][1..] == ["f"];
    assert Spans(["de", "f"], gap, 3 + 3 * gap) == [(3 + 3 * gap, 5 + 3 * gap)] + Spans(["f"], gap, 5 + 4 * gap);
    assert ["c", "de", "f"][1..] == ["de", "f"];
    assert Spans(["c", "de", "f"], gap, 2 + 2 * gap) == [(2 + 2 * gap, 3 + 2 * gap)] + Spans(["de", "f"], gap, 3 + 3 * gap);
    assert ["b", "c", "de", "f"][1..] == ["c", "de", "f"];
    assert Spans(["b", "c", "de", "f"], gap, 1 + gap) == [(1 + gap, 2 + gap)] + Spans(["c", "de", "f"], gap, 2 + 2 * gap);
    assert ["a", "b", "c", "de", "f"][1..] == ["b", "c", "de", "f"];
    assert Spans(["a", "b", "c", "de", "f"], gap, 0) == [(0, 1)] + Spans(["b", "c", "de", "f"], gap, 1 + gap);
    assert Spans(["f"], gap, 5 + 2 * gap) == [(5 + 2 * gap, 6 + 2 * gap)];
    assert Spans(["de", "f"], gap, 3 + gap) == [(3 + gap, 5 + gap)] + Spans(["f"], gap, 5 + 2 * gap);
    assert ["abc", "de", "f"][1..] == ["de", "f"];
    assert Spans(["abc", "de", "f"], gap, 0) == [(0, 3)] + Spans(["de", "f"], gap, 3 + gap);
  }

  /** The line pairs `zip` forms: as many as the shorter list has lines. */
  function Lines(refLines: seq<string>, hypLines: seq<string>, v: Variant): (ls: seq<LineStats>)
    ensures |ls| == Min(|refLines|, |hypLines|)
    ensures forall i :: 0 <= i < |ls| ==> ls[i] == LineStatsOf(refLines[i], hypLines[i], v)
  {
    seq(Min(|refLines|, |hypLines|), i requires 0 <= i < Min(|refLines|, |hypLines|) => LineStatsOf(refLines[i], hypLines[i], v))
  }

  /** The counters after the given lines. */
  function SumCounts(ls: seq<LineStats>): Counts
  {
    if |ls| == 0 then Counts(0, 0, 0, 0, 0, 0)
    else Add(SumCounts(ls[..|ls| - 1]), ls[|ls| - 1].counts)
  }

  /** All words counted correct, in order; `vocab_correct` holds them with multiplicities. */
  function AllMatched(ls: seq<LineStats>): seq<string>
  {
    if |ls| == 0 then [] else AllMatched(ls[..|ls| - 1]) + ls[|ls| - 1].matched
  }

  /** The `vocab_ref` counter. */
  function RefVocab(ls: seq<LineStats>): multiset<string>
  {
    if |ls| == 0 then multiset{} else RefVocab(ls[..|ls| - 1]) + multiset(ls[|ls| - 1].refWords)
  }

  /** The `vocab_hyp` counter. */
  function HypVocab(ls: seq<LineStats>): multiset<string>
  {
    if |ls| == 0 then multiset{} else HypVocab(ls[..|ls| - 1]) + multiset(ls[|ls| - 1].hypWords)
  }

  /** The keys of a counter. */
  function Keys(counter: multiset<string>): set<string>
  {
    set w | w in counter
  }

  /** The counters are consistent: correct words and shared boundaries are bounded by both
      sides, one boundary pair per word, and the matched words come from both sides'
      vocabularies, one per correct word. */
  ghost predicate Consistent(c: Counts, correct: seq<string>, vocabRef: multiset<string>, vocabHyp: multiset<string>)
  {
    && c.correct <= c.refWords && c.correct <= c.hypWords
    && c.boundaryCorrect <= c.boundaryTotal && c.boundaryCorrect <= c.boundaryPredicted
    && c.boundaryTotal == c.refWords && c.boundaryPredicted == c.hypWords
    && |correct| == c.correct && multiset(correct) <= vocabRef && multiset(correct) <= vocabHyp
  }

  ghost predicate ConsistentLine(l: LineStats)
  {
    Consistent(l.counts, l.matched, multiset(l.refWords), multiset(l.hypWords))
  }

  /** Every line pair is consistent on its own. */
  lemma LineConsistent(refText: string, hypText: string, v: Variant)
    ensures ConsistentLine(LineStatsOf(refText, hypText, v))
  {
    var refWords := SplitWs(refText);
    var hypWords := SplitWs(hypText);
    SplitWsNonEmpty(refText);
    SplitWsNonEmpty(hypText);
    AlignmentBounded(refWords, hypWords, v);
    BoundaryCountsBounded(refWords, hypWords, v);
  }

  /** Either alignment draws on the words of both sides and counts at most the shorter
      side's words. */
  lemma AlignmentBounded(refWords: seq<string>, hypWords: seq<string>, v: Variant)
    ensures multiset(Alignment(refWords, hypWords, v)) <= multiset(refWords)
    ensures multiset(Alignment(refWords, hypWords, v)) <= multiset(hypWords)
    ensures |Alignment(refWords, hypWords, v)| <= Min(|refWords|, |hypWords|)
  {
    assert refWords[0..] == refWords && hypWords[0..] == hypWords;
    if v.AsWritten? {
      AlignedBounded(refWords, hypWords, 0, 0);
    } else {
      AlignedUnspacedBounded(refWords, hypWords, 0, 0);
    }
  }

  lemma AddConsistent(a: Counts, ca: seq<string>, ra: multiset<string>, ha: multiset<string>,
                      b: Counts, cb: seq<string>, rb: multiset<string>, hb: multiset<string>)
    requires Consistent(a, ca, ra, ha) && Consistent(b, cb, rb, hb)
    ensures Consistent(Add(a, b), ca + cb, ra + rb, ha + hb)
  {
  }

  /** Consistent lines sum to consistent counters. */
  lemma {:induction false} SumConsistent(ls: seq<LineStats>)
    requires forall i :: 0 <= i < |ls| ==> ConsistentLine(ls[i])
    ensures Consistent(SumCounts(ls), AllMatched(ls), RefVocab(ls), HypVocab(ls))
  {
    if |ls| > 0 {
      var init := ls[..|ls| - 1];
      var last := ls[|ls| - 1];
      assert forall i :: 0 <= i < |init| ==> init[i] == ls[i];
      SumConsistent(init);
      assert ConsistentLine(last);
      AddConsistent(SumCounts(init), AllMatched(init), RefVocab(init), HypVocab(init),
                    last.counts, last.matched, multiset(last.refWords), multiset(last.hypWords));
    }
  }

  /** The counters over all line pairs are consistent. */
  lemma LinesConsistent(refLines: seq<string>, hypLines: seq<string>, v: Variant)
    ensures var ls := Lines(refLines, hypLines, v);
      Consistent(SumCounts(ls), AllMatched(ls), RefVocab(ls), HypVocab(ls))
  {
    var ls := Lines(refLines, hypLines, v);
    forall i | 0 <= i < |ls| ensures ConsistentLine(ls[i]) {
      LineConsistent(refLines[i], hypLines[i], v);
    }
    SumConsistent(ls);
  }

  /** `x / y if y > 0 else 0`. */
  function Ratio(x: nat, y: nat): (r: real)
    ensures y == 0 ==> r == 0.0
    ensures y > 0 ==> r * (y as real) == x as real
    ensures x <= y ==> 0.0 <= r <= 1.0
  {
    if y > 0 then x as real / y as real else 0.0
  }

  /** `2 * (p * r) / (p + r) if (p + r) > 0 else 0`: the harmonic mean, which lies between
      the smaller and the larger of the two. */
  function F1(p: real, r: real): (f: real)
    ensures p + r == 0.0 ==> f == 0.0
    ensures p + r > 0.0 ==> f * (p + r) == 2.0 * (p * r)
    ensures 0.0 <= p && 0.0 <= r ==> f >= 0.0 && (f <= p || f <= r) && (f >= p || f >= r)
  {
    if p + r > 0.0 then
      var f := 2.0 * (p * r) / (p + r);
      HarmonicBetween(p, r, f);
      f
    else 0.0
  }

  lemma HarmonicBetween(p: real, r: real, f: real)
    requires p + r > 0.0 && f * (p + r) == 2.0 * (p * r)
    ensures 0.0 <= p && 0.0 <= r ==> f >= 0.0 && (f <= p || f <= r) && (f >= p || f >= r)
  {
    if 0.0 <= p && 0.0 <= r {
      var s := p + r;
      ProductNonNeg(p, r);
      CancelPos(0.0, f, s);
      if p <= r {
        HarmonicBelow(p, r, f);
      } else {
        HarmonicBelow(r, p, f);
      }
    }
  }

  /** The harmonic mean of `lo <= hi` lies in `[lo, hi]`. */
  lemma HarmonicBelow(lo: real, hi: real, f: real)
    requires 0.0 <= lo <= hi && lo + hi > 0.0 && f * (lo + hi) == 2.0 * (lo * hi)
    ensures lo <= f <= hi
  {
    var s := lo + hi;
    assert hi * s - 2.0 * (lo * hi) == hi * (hi - lo);
    ProductNonNeg(hi, hi - lo);
    CancelPos(f, hi, s);
    assert 2.0 * (lo * hi) - lo * s == lo * (hi - lo);
    ProductNonNeg(lo, hi - lo);
    CancelPos(lo, f, s);
  }

  lemma ProductNonNeg(a: real, b: real)
    requires 0.0 <= a && 0.0 <= b
    ensures 0.0 <= a * b
  {
  }

  /** Both sides of `x * c <= y * c` may be divided by a positive `c`. */
  lemma CancelPos(x: real, y: real, c: real)
    requires c > 0.0 && x * c <= y * c
    ensures x <= y
  {
    assert (y - x) * c == y * c - x * c;
  }

  /** The result of `calculate_metrics`. */
  datatype Metrics = Metrics(
    wordPrecision: real, wordRecall: real, wordF1: real,
    boundaryPrecision: real, boundaryRecall: real, boundaryF1: real,
    vocabPrecision: real, vocabRecall: real, vocabF1: real,
    totalRefWords: nat, totalHypWords: nat, correctWords: nat,
    vocabRefSize: nat, vocabHypSize: nat, vocabCommon: nat)

  /** The final formulas, from the counters and the two vocabularies. */
  function MetricsOf(c: Counts, vocabRef: set<string>, vocabHyp: set<string>): Metrics
  {
    var p := Ratio(c.correct, c.hypWords);
    var r := Ratio(c.correct, c.refWords);
    var bp := Ratio(c.boundaryCorrect, c.boundaryPredicted);
    var br := Ratio(c.boundaryCorrect, c.boundaryTotal);
    var common := |vocabHyp * vocabRef|;
    var vp := Ratio(common, |vocabHyp|);
    var vr := Ratio(common, |vocabRef|);
    Metrics(p, r, F1(p, r), bp, br, F1(bp, br), vp, vr, F1(vp, vr),
            c.refWords, c.hypWords, c.correct, |vocabRef|, |vocabHyp|, common)
  }

  predicate InUnit(x: real)
  {
    0.0 <= x <= 1.0
  }

  /** Every ratio and F-score lies in [0, 1] and the common vocabulary is no larger than
      either vocabulary, whenever the counters are consistent. */
  lemma MetricsBounded(c: Counts, vocabRef: set<string>, vocabHyp: set<string>)
    requires c.correct <= c.refWords && c.correct <= c.hypWords
    requires c.boundaryCorrect <= c.boundaryTotal && c.boundaryCorrect <= c.boundaryPredicted
    ensures var m := MetricsOf(c, vocabRef, vocabHyp);
      && InUnit(m.wordPrecision) && InUnit(m.wordRecall) && InUnit(m.wordF1)
      && InUnit(m.boundaryPrecision) && InUnit(m.boundaryRecall) && InUnit(m.boundaryF1)
      && InUnit(m.vocabPrecision) && InUnit(m.vocabRecall) && InUnit(m.vocabF1)
      && m.vocabCommon <= Min(m.vocabRefSize, m.vocabHypSize)
  {
    SubsetCard(vocabHyp * vocabRef, vocabHyp);
    SubsetCard(vocabHyp * vocabRef, vocabRef);
  }

  /** The counting loop of `calculate_metrics` over the line pairs `zip` forms. */
  method CountLines(refLines: seq<string>, hypLines: seq<string>, v: Variant)
    returns (counts: Counts, correct: seq<string>, vocabRef: multiset<string>, vocabHyp: multiset<string>)
    ensures var ls := Lines(refLines, hypLines, v);
      && counts == SumCounts(ls) && correct == AllMatched(ls)
      && vocabRef == RefVocab(ls) && vocabHyp == HypVocab(ls)
  {
    var ls := Lines(refLines, hypLines, v);
    var n := Min(|refLines|, |hypLines|);
    counts := Counts(0, 0, 0, 0, 0, 0);
    correct := [];
    vocabRef, vocabHyp := multiset{}, multiset{};
    var k := 0;
    while k < n
      invariant 0 <= k <= n
      invariant counts == SumCounts(ls[..k]) && correct == AllMatched(ls[..k])
      invariant vocabRef == RefVocab(ls[..k]) && vocabHyp == HypVocab(ls[..k])
    {
      var line := CountLine(refLines[k], hypLines[k], v);
      SumStep(ls, k);
      counts := Add(counts, line.counts);
      correct := correct + line.matched;
      vocabRef := vocabRef + multiset(line.refWords);
      vocabHyp := vocabHyp + multiset(line.hypWords);
      k := k + 1;
    }
    assert ls[..n] == ls;
  }

  /** The body of the `zip` loop for one line pair: the boundaries and words of both
      sides, the boundary sets, and the word-level loop. */
  method CountLine(refText: string, hypText: string, v: Variant) returns (line: LineStats)
    ensures line == LineStatsOf(refText, hypText, v)
  {
    var refBounds, refWords := GetWordBoundaries(refText);
    var hypBounds, hypWords := GetWordBoundaries(hypText);
    var matched;
    if v.AsWritten? {
      matched := AlignWords(refWords, hypWords);
    } else {
      refBounds, hypBounds := UnspacedBoundaries(refText), UnspacedBoundaries(hypText);
      matched := AlignWordsUnspaced(refWords, hypWords);
    }
    var refSet, hypSet := Elems(refBounds), Elems(hypBounds);
    line := LineStats(Counts(|refWords|, |hypWords|, |matched|, |refSet * hypSet|, |refSet|, |hypSet|),
                      matched, refWords, hypWords);
  }

  /** Adding line `k` to the sums over the lines before it. */
  lemma SumStep(ls: seq<LineStats>, k: nat)
    requires k < |ls|
    ensures SumCounts(ls[..k + 1]) == Add(SumCounts(ls[..k]), ls[k].counts)
    ensures AllMatched(ls[..k + 1]) == AllMatched(ls[..k]) + ls[k].matched
    ensures RefVocab(ls[..k + 1]) == RefVocab(ls[..k]) + multiset(ls[k].refWords)
    ensures HypVocab(ls[..k + 1]) == HypVocab(ls[..k]) + multiset(ls[k].hypWords)
  {
    assert ls[..k + 1][..k] == ls[..k];
  }

  /** `calculate_metrics(ref_lines, hyp_lines)` as written: the metrics of the summed
      counters and vocabularies, every ratio in [0, 1]. */
  method CalculateMetrics(refLines: seq<string>, hypLines: seq<string>) returns (m: Metrics)
    ensures var ls := Lines(refLines, hypLines, AsWritten);
      m == MetricsOf(SumCounts(ls), Keys(RefVocab(ls)), Keys(HypVocab(ls)))
    ensures InUnit(m.wordPrecision) && InUnit(m.wordRecall) && InUnit(m.wordF1)
    ensures InUnit(m.boundaryPrecision) && InUnit(m.boundaryRecall) && InUnit(m.boundaryF1)
    ensures InUnit(m.vocabPrecision) && InUnit(m.vocabRecall) && InUnit(m.vocabF1)
    ensures m.correctWords <= Min(m.totalRefWords, m.totalHypWords)
    ensures m.vocabCommon <= Min(m.vocabRefSize, m.vocabHypSize)
  {
    var counts, correct, vocabRef, vocabHyp := CountLines(refLines, hypLines, AsWritten);
    m := MetricsOf(counts, Keys(vocabRef), Keys(vocabHyp));
    LinesConsistent(refLines, hypLines, AsWritten);
    MetricsBounded(counts, Keys(vocabRef), Keys(vocabHyp));
  }

  /** `calculate_metrics` with the corrected offsets and word alignment. */
  method CalculateMetricsCorrected(refLines: seq<string>, hypLines: seq<string>) returns (m: Metrics)
    ensures var ls := Lines(refLines, hypLines, Corrected);
      m == MetricsOf(SumCounts(ls), Keys(RefVocab(ls)), Keys(HypVocab(ls)))
    ensures InUnit(m.wordPrecision) && InUnit(m.wordRecall) && InUnit(m.wordF1)
    ensures InUnit(m.boundaryPrecision) && InUnit(m.boundaryRecall) && InUnit(m.boundaryF1)
    ensures InUnit(m.vocabPrecision) && InUnit(m.vocabRecall) && InUnit(m.vocabF1)
    ensures m.correctWords <= Min(m.totalRefWords, m.totalHypWords)
    ensures m.vocabCommon <= Min(m.vocabRefSize, m.vocabHypSize)
  {
    var counts, correct, vocabRef, vocabHyp := CountLines(refLines, hypLines, Corrected);
    m := MetricsOf(counts, Keys(vocabRef), Keys(vocabHyp));
    LinesConsistent(refLines, hypLines, Corrected);
    MetricsBounded(counts, Keys(vocabRef), Keys(vocabHyp));
  }

  /** A segmentation aligned with itself matches every word. */
  lemma {:induction false} AlignedUnspacedSelf(ws: seq<string>, i: nat)
    requires i <= |ws|
    ensures AlignedUnspaced(ws, ws, i, i) == ws[i..]
    decreases |ws| - i
  {
    if i < |ws| {
      AlignedUnspacedSelf(ws, i + 1);
      assert ws[i..] == [ws[i]] + ws[i + 1..];
    }
  }

  ghost predicate Perfect(l: LineStats)
  {
    l.counts.correct == l.counts.refWords == l.counts.hypWords
    && l.counts.boundaryCorrect == l.counts.boundaryTotal == l.counts.boundaryPredicted
    && l.counts.boundaryTotal == l.counts.refWords
  }

  /** A line scored against itself is perfect. */
  lemma LinePerfect(text: string, v: Variant)
    ensures Perfect(LineStatsOf(text, text, v))
  {
    var ws := SplitWs(text);
    assert ws[0..] == ws;
    if v.AsWritten? {
      AlignedSelf(ws, 0);
    } else {
      AlignedUnspacedSelf(ws, 0);
    }
    SplitWsNonEmpty(text);
    BoundaryCountsBounded(ws, ws, v);
    var r := Elems(Spans(ws, Gap(v), 0));
    assert r * r == r;
  }

  lemma {:induction false} SumPerfect(ls: seq<LineStats>)
    requires forall i :: 0 <= i < |ls| ==> Perfect(ls[i])
    ensures SumCounts(ls).correct == SumCounts(ls).refWords == SumCounts(ls).hypWords
    ensures SumCounts(ls).boundaryCorrect == SumCounts(ls).boundaryTotal == SumCounts(ls).boundaryPredicted
    ensures SumCounts(ls).boundaryTotal == SumCounts(ls).refWords
  {
    if |ls| > 0 {
      var init := ls[..|ls| - 1];
      assert forall i :: 0 <= i < |init| ==> init[i] == ls[i];
      SumPerfect(init);
      assert Perfect(ls[|ls| - 1]);
    }
  }

  /** Scoring a segmentation against itself gives precision, recall and F1 of 1 for words
      and boundaries, as soon as there is a word. */
  lemma SelfScoresOne(lines: seq<string>, v: Variant)
    requires SumCounts(Lines(lines, lines, v)).refWords > 0
    ensures var ls := Lines(lines, lines, v);
      var m := MetricsOf(SumCounts(ls), Keys(RefVocab(ls)), Keys(HypVocab(ls)));
      && m.wordPrecision == 1.0 && m.wordRecall == 1.0 && m.wordF1 == 1.0
      && m.boundaryPrecision == 1.0 && m.boundaryRecall == 1.0 && m.boundaryF1 == 1.0
  {
    var ls := Lines(lines, lines, v);
    forall i | 0 <= i < |ls| ensures Perfect(ls[i]) {
      LinePerfect(lines[i], v);
    }
    SumPerfect(ls);
    PerfectScoresOne(SumCounts(ls), Keys(RefVocab(ls)), Keys(HypVocab(ls)));
  }

  /** Counters with everything correct give word and boundary scores of 1. */
  lemma PerfectScoresOne(c: Counts, vocabRef: set<string>, vocabHyp: set<string>)
    requires c.correct == c.refWords == c.hypWords > 0
    requires c.boundaryCorrect == c.boundaryTotal == c.boundaryPredicted == c.refWords
    ensures var m := MetricsOf(c, vocabRef, vocabHyp);
      && m.wordPrecision == 1.0 && m.wordRecall == 1.0 && m.wordF1 == 1.0
      && m.boundaryPrecision == 1.0 && m.boundaryRecall == 1.0 && m.boundaryF1 == 1.0
  {
    RatioSelf(c.refWords);
    F1One();
  }

  lemma RatioSelf(x: nat)
    requires x > 0
    ensures Ratio(x, x) == 1.0
  {
  }

  lemma F1One()
    ensures F1(1.0, 1.0) == 1.0
  {
  }
}
