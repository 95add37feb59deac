/**
 * Bidirectional maximum matching (`_forward_mm`, `_backward_mm`,
 * `_get_bimm_segmentation`) and the injection of its spans into the lattice.
 */
module MaxMatch {
  import opened Strings
  import opened Lattice

  /** A segment `(start, end, word)` of a maximum-matching result. */
  datatype Span = Span(start: nat, end: nat, word: string)

  function Max(a: int, b: int): int
  {
    if a >= b then a else b
  }

  /** The `l` syllables starting at `i`, joined. */
  function WordFrom(syls: seq<string>, i: nat, l: nat): string
    requires i + l <= |syls|
  {
    Word(syls, i, i + l)
  }

  /** The `l` syllables ending at `i`, joined. */
  function WordTo(syls: seq<string>, i: nat, l: nat): string
    requires l <= i <= |syls|
  {
    Word(syls, i - l, i)
  }

  /** The longest `l` in `1..j` whose `l` syllables from `i` form a dictionary word, or 0. */
  function LongestFrom(syls: seq<string>, dict: set<string>, i: nat, j: int): (r: nat)
    requires i + j <= |syls|
    ensures r > 0 ==> r <= j && WordFrom(syls, i, r) in dict
    ensures forall l: nat :: r < l <= j ==> WordFrom(syls, i, l) !in dict
    decreases j
  {
    if j <= 0 then 0
    else if Word(syls, i, i + j) in dict then j
    else LongestFrom(syls, dict, i, j - 1)
  }

  /** The longest `l` in `1..j` whose `l` syllables ending at `i` form a dictionary word, or 0. */
  function LongestTo(syls: seq<string>, dict: set<string>, i: nat, j: int): (r: nat)
    requires j <= i <= |syls|
    ensures r > 0 ==> r <= j && WordTo(syls, i, r) in dict
    ensures forall l: nat :: r < l <= j ==> WordTo(syls, i, l) !in dict
    decreases j
  {
    if j <= 0 then 0
    else if Word(syls, i - j, i) in dict then j
    else LongestTo(syls, dict, i, j - 1)
  }

  /** The segment the forward pass takes at `i`: the longest dictionary word within reach,
      or the single syllable. */
  function ForwardHead(syls: seq<string>, dict: set<string>, maxLen: int, i: nat): (s: Span)
    requires i < |syls|
    ensures s.start == i < s.end <= |syls|
  {
    var l := LongestFrom(syls, dict, i, Min(maxLen, |syls| - i));
    if l > 0 then Span(i, i + l, Word(syls, i, i + l)) else Span(i, i + 1, syls[i])
  }

  /** The segment the backward pass takes ending at `i`. */
  function BackwardHead(syls: seq<string>, dict: set<string>, maxLen: int, i: nat): (s: Span)
    requires 0 < i <= |syls|
    ensures s.start < s.end == i
  {
    var l := LongestTo(syls, dict, i, Min(maxLen, i));
    if l > 0 then Span(i - l, i, Word(syls, i - l, i)) else Span(i - 1, i, syls[i - 1])
  }

  /** The forward greedy segmentation of `syls[i..]`. */
  function ForwardFrom(syls: seq<string>, dict: set<string>, maxLen: int, i: nat): seq<Span>
    requires i <= |syls|
    decreases |syls| - i
  {
    if i == |syls| then []
    else
      var s := ForwardHead(syls, dict, maxLen, i);
      [s] + ForwardFrom(syls, dict, maxLen, s.end)
  }

  /** The backward greedy segmentation of `syls[..i]`. */
  function BackwardTo(syls: seq<string>, dict: set<string>, maxLen: int, i: nat): seq<Span>
    requires i <= |syls|
    decreases i
  {
    if i == 0 then []
    else
      var s := BackwardHead(syls, dict, maxLen, i);
      BackwardTo(syls, dict, maxLen, s.start) + [s]
  }

  /** The inner loop of `_forward_mm`: try lengths from `bound` down to 1 and stop at the
      first dictionary word. */
  method LongestMatchFrom(syls: seq<string>, dict: set<string>, i: nat, bound: int) returns (j: nat)
    requires i + bound <= |syls|
    ensures j == LongestFrom(syls, dict, i, bound)
  {
    j := if bound > 0 then bound else 0;
    var found := false;
    while j > 0 && !found
      invariant j <= bound || (bound <= 0 && j == 0)
      invariant found ==> 0 < j <= bound && WordFrom(syls, i, j) in dict
      invariant forall l: nat :: j < l <= bound ==> WordFrom(syls, i, l) !in dict
      decreases j, !found
    {
      var word := WordFrom(syls, i, j);
      if word in dict {
        found := true;
      } else {
        j := j - 1;
      }
    }
  }

  /** One step of the forward pass from `i`. */
  lemma ForwardStep(syls: seq<string>, dict: set<string>, maxLen: int, i: nat, result: seq<Span>)
    requires i < |syls|
    ensures var s := ForwardHead(syls, dict, maxLen, i);
      result + ForwardFrom(syls, dict, maxLen, i) == (result + [s]) + ForwardFrom(syls, dict, maxLen, s.end)
  {
  }

  /** One iteration of `_forward_mm`'s outer loop: the segment taken at `i`. */
  method ForwardSegment(syls: seq<string>, dict: set<string>, maxLen: int, i: nat) returns (s: Span)
    requires i < |syls|
    ensures s == ForwardHead(syls, dict, maxLen, i)
  {
    var j := LongestMatchFrom(syls, dict, i, Min(maxLen, |syls| - i));
    s := if j > 0 then Span(i, i + j, Word(syls, i, i + j)) else Span(i, i + 1, syls[i]);
  }

  /** `_forward_mm(syllables)`. */
  method ForwardMM(syls: seq<string>, dict: set<string>, maxLen: int) returns (result: seq<Span>)
    ensures result == ForwardFrom(syls, dict, maxLen, 0)
  {
    result := [];
    var i := 0;
    while i < |syls|
      invariant 0 <= i <= |syls|
      invariant ForwardFrom(syls, dict, maxLen, 0) == result + ForwardFrom(syls, dict, maxLen, i)
      decreases |syls| - i
    {
      var s := ForwardSegment(syls, dict, maxLen, i);
      ForwardStep(syls, dict, maxLen, i, result);
      result := result + [s];
      i := s.end;
    }
  }

  /** The inner loop of `_backward_mm`: try lengths from `bound` down to 1 and stop at the
      first dictionary word ending at `i`. */
  method LongestMatchTo(syls: seq<string>, dict: set<string>, i: nat, bound: int) returns (j: nat)
    requires bound <= i <= |syls|
    ensures j == LongestTo(syls, dict, i, bound)
  {
    j := if bound > 0 then bound else 0;
    var found := false;
    while j > 0 && !found
      invariant j <= bound || (bound <= 0 && j == 0)
      invariant found ==> 0 < j <= bound && WordTo(syls, i, j) in dict
      invariant forall l: nat :: j < l <= bound ==> WordTo(syls, i, l) !in dict
      decreases j, !found
    {
      var word := WordTo(syls, i, j);
      if word in dict {
        found := true;
      } else {
        j := j - 1;
      }
    }
  }

  /** One iteration of `_backward_mm`'s outer loop: the segment taken ending at `i`. */
  method BackwardSegment(syls: seq<string>, dict: set<string>, maxLen: int, i: nat) returns (s: Span)
    requires 0 < i <= |syls|
    ensures s == BackwardHead(syls, dict, maxLen, i)
  {
    var j := LongestMatchTo(syls, dict, i, Min(maxLen, i));
    s := if j > 0 then Span(i - j, i, Word(syls, i - j, i)) else Span(i - 1, i, syls[i - 1]);
  }

  /** `_backward_mm(syllables)`: the segments are prepended with `insert(0, ...)`. */
  method BackwardMM(syls: seq<string>, dict: set<string>, maxLen: int) returns (result: seq<Span>)
    ensures result == BackwardTo(syls, dict, maxLen, |syls|)
  {
    result := [];
    var i := |syls|;
    while i > 0
      invariant 0 <= i <= |syls|
      invariant BackwardTo(syls, dict, maxLen, |syls|) == BackwardTo(syls, dict, maxLen, i) + result
      decreases i
    {
      var s := BackwardSegment(syls, dict, maxLen, i);
      BackwardStep(syls, dict, maxLen, i, result);
      result := [s] + result;
      i := s.start;
    }
  }

  /** One step of the backward pass: the span ending at `i` moves from the pending prefix
      to the front of the collected suffix. */
  lemma BackwardStep(syls: seq<string>, dict: set<string>, maxLen: int, i: nat, result: seq<Span>)
    requires 0 < i <= |syls|
    ensures var s := BackwardHead(syls, dict, maxLen, i);
      BackwardTo(syls, dict, maxLen, i) + result == BackwardTo(syls, dict, maxLen, s.start) + ([s] + result)
  {
  }

  /** The spans cover `[lo, hi]` contiguously, in order. */
  ghost predicate Tiles(spans: seq<Span>, lo: nat, hi: nat)
  {
    && (|spans| == 0 ==> lo == hi)
    && (|spans| > 0 ==> spans[0].start == lo && spans[|spans| - 1].end == hi)
    && (forall k :: 0 <= k < |spans| ==> spans[k].start < spans[k].end)
    && (forall k :: 0 <= k < |spans| - 1 ==> spans[k].end == spans[k + 1].start)
  }

  /** A span of at most `maxLen` syllables (at least one) spelling its syllables, that is
      a dictionary word or a single syllable. */
  ghost predicate IsMatchSpan(syls: seq<string>, dict: set<string>, maxLen: int, s: Span)
  {
    && s.start < s.end <= |syls|
    && s.end - s.start <= Max(maxLen, 1)
    && s.word == Word(syls, s.start, s.end)
    && Qualifies(syls, dict, s.start, s.end)
  }

  /** No longer dictionary word within reach starts where the span starts. */
  ghost predicate LongestAtStart(syls: seq<string>, dict: set<string>, maxLen: int, s: Span)
    requires s.start <= |syls|
  {
    forall l: nat :: s.end - s.start < l <= Min(maxLen, |syls| - s.start) ==> WordFrom(syls, s.start, l) !in dict
  }

  /** No longer dictionary word within reach ends where the span ends. */
  ghost predicate LongestAtEnd(syls: seq<string>, dict: set<string>, maxLen: int, s: Span)
    requires s.end <= |syls|
  {
    forall l: nat :: s.end - s.start < l <= Min(maxLen, s.end) ==> WordTo(syls, s.end, l) !in dict
  }

  /** A span the forward pass may produce: valid and the longest match at its start. */
  ghost predicate ForwardSpan(syls: seq<string>, dict: set<string>, maxLen: int, s: Span)
  {
    IsMatchSpan(syls, dict, maxLen, s) && LongestAtStart(syls, dict, maxLen, s)
  }

  /** A span the backward pass may produce: valid and the longest match at its end. */
  ghost predicate BackwardSpan(syls: seq<string>, dict: set<string>, maxLen: int, s: Span)
  {
    IsMatchSpan(syls, dict, maxLen, s) && LongestAtEnd(syls, dict, maxLen, s)
  }

  lemma TilesCons(s: Span, rest: seq<Span>, hi: nat)
    requires s.start < s.end && Tiles(rest, s.end, hi)
    ensures Tiles([s] + rest, s.start, hi)
  {
    var r := [s] + rest;
    forall k | 0 <= k < |r| - 1 ensures r[k].end == r[k + 1].start {
      if k > 0 {
        assert r[k] == rest[k - 1] && r[k + 1] == rest[k];
      }
    }
  }

  lemma TilesSnoc(rest: seq<Span>, s: Span)
    requires s.start < s.end && Tiles(rest, 0, s.start)
    ensures Tiles(rest + [s], 0, s.end)
  {
    var r := rest + [s];
    forall k | 0 <= k < |r| - 1 ensures r[k].end == r[k + 1].start {
      if k < |rest| - 1 {
        assert r[k] == rest[k] && r[k + 1] == rest[k + 1];
      }
    }
  }

  /** The segment the forward pass takes is valid and the longest match at its start. */
  lemma ForwardHeadSound(syls: seq<string>, dict: set<string>, maxLen: int, i: nat)
    requires i < |syls|
    ensures ForwardSpan(syls, dict, maxLen, ForwardHead(syls, dict, maxLen, i))
  {
    var bound := Min(maxLen, |syls| - i);
    var l := LongestFrom(syls, dict, i, bound);
    var s := ForwardHead(syls, dict, maxLen, i);
    if l == 0 {
      WordSingle(syls, i);
    }
    assert IsMatchSpan(syls, dict, maxLen, s);
    assert LongestAtStart(syls, dict, maxLen, s) by {
      forall m: nat | s.end - i < m <= bound ensures WordFrom(syls, i, m) !in dict {
      }
    }
  }

  /** The segment the backward pass takes is valid and the longest match at its end. */
  lemma BackwardHeadSound(syls: seq<string>, dict: set<string>, maxLen: int, i: nat)
    requires 0 < i <= |syls|
    ensures BackwardSpan(syls, dict, maxLen, BackwardHead(syls, dict, maxLen, i))
  {
    var bound := Min(maxLen, i);
    var l := LongestTo(syls, dict, i, bound);
    var s := BackwardHead(syls, dict, maxLen, i);
    if l == 0 {
      WordSingle(syls, i - 1);
    }
    assert IsMatchSpan(syls, dict, maxLen, s);
    assert LongestAtEnd(syls, dict, maxLen, s) by {
      forall m: nat | i - s.start < m <= bound ensures WordTo(syls, i, m) !in dict {
      }
    }
  }

  /** The forward result tiles `[i, n]` with dictionary words or single syllables, each the
      longest dictionary word starting at its position. */
  lemma {:induction false} ForwardSound(syls: seq<string>, dict: set<string>, maxLen: int, i: nat)
    requires i <= |syls|
    ensures Tiles(ForwardFrom(syls, dict, maxLen, i), i, |syls|)
    ensures forall k :: 0 <= k < |ForwardFrom(syls, dict, maxLen, i)| ==>
      ForwardSpan(syls, dict, maxLen, ForwardFrom(syls, dict, maxLen, i)[k])
    decreases |syls| - i
  {
    if i < |syls| {
      var s := ForwardHead(syls, dict, maxLen, i);
      ForwardSound(syls, dict, maxLen, s.end);
      ForwardHeadSound(syls, dict, maxLen, i);
      var rest := ForwardFrom(syls, dict, maxLen, s.end);
      var r := ForwardFrom(syls, dict, maxLen, i);
      assert r == [s] + rest;
      TilesCons(s, rest, |syls|);
      forall k | 0 <= k < |r| ensures ForwardSpan(syls, dict, maxLen, r[k]) {
        if k > 0 {
          assert r[k] == rest[k - 1];
        }
      }
    }
  }

  /** The backward result tiles `[0, i]` likewise, each span the longest dictionary word
      ending at its position. */
  lemma {:induction false} BackwardSound(syls: seq<string>, dict: set<string>, maxLen: int, i: nat)
    requires i <= |syls|
    ensures Tiles(BackwardTo(syls, dict, maxLen, i), 0, i)
    ensures forall k :: 0 <= k < |BackwardTo(syls, dict, maxLen, i)| ==>
      BackwardSpan(syls, dict, maxLen, BackwardTo(syls, dict, maxLen, i)[k])
    decreases i
  {
    if i > 0 {
      var s := BackwardHead(syls, dict, maxLen, i);
      BackwardSound(syls, dict, maxLen, s.start);
      BackwardHeadSound(syls, dict, maxLen, i);
      var rest := BackwardTo(syls, dict, maxLen, s.start);
      var r := BackwardTo(syls, dict, maxLen, i);
      assert r == rest + [s];
      TilesSnoc(rest, s);
      forall k | 0 <= k < |r| ensures BackwardSpan(syls, dict, maxLen, r[k]) {
        if k < |rest| {
          assert r[k] == rest[k];
        }
      }
    }
  }

  /** Greedy longest matching has exactly one outcome: any tiling of `[i, n]` by valid spans
      that each take the longest dictionary word at their start is the forward result. */
  lemma {:induction false} ForwardUnique(syls: seq<string>, dict: set<string>, maxLen: int, i: nat, spans: seq<Span>)
    requires i <= |syls|
    requires Tiles(spans, i, |syls|)
    requires forall k :: 0 <= k < |spans| ==> ForwardSpan(syls, dict, maxLen, spans[k])
    ensures spans == ForwardFrom(syls, dict, maxLen, i)
    decreases |syls| - i
  {
    if i < |syls| {
      var s := spans[0];
      assert ForwardSpan(syls, dict, maxLen, s);
      FirstForwardSpan(syls, dict, maxLen, s);
      var tail := spans[1..];
      assert Tiles(tail, s.end, |syls|) by {
        if |tail| > 0 {
          assert tail[0].start == spans[0].end;
          forall k | 0 <= k < |tail| - 1 ensures tail[k].end == tail[k + 1].start {
            assert tail[k] == spans[k + 1] && tail[k + 1] == spans[k + 2];
          }
        } else {
          assert |spans| == 1;
        }
      }
      forall k | 0 <= k < |tail| ensures ForwardSpan(syls, dict, maxLen, tail[k]) {
        assert tail[k] == spans[k + 1];
      }
      ForwardUnique(syls, dict, maxLen, s.end, tail);
      assert spans == [s] + tail;
    }
  }

  /** A valid longest-match span at `i` is the one the forward pass takes at `i`. */
  lemma FirstForwardSpan(syls: seq<string>, dict: set<string>, maxLen: int, s: Span)
    requires ForwardSpan(syls, dict, maxLen, s)
    ensures ForwardFrom(syls, dict, maxLen, s.start) == [s] + ForwardFrom(syls, dict, maxLen, s.end)
  {
    ForwardHeadUnique(syls, dict, maxLen, s);
  }

  /** The only span the forward pass may produce at a position is the one it takes there. */
  lemma ForwardHeadUnique(syls: seq<string>, dict: set<string>, maxLen: int, s: Span)
    requires ForwardSpan(syls, dict, maxLen, s)
    ensures ForwardHead(syls, dict, maxLen, s.start) == s
  {
    var i := s.start;
    var l := LongestFrom(syls, dict, i, Min(maxLen, |syls| - i));
    var len := s.end - s.start;
    WordSingle(syls, i);
    assert WordFrom(syls, i, len) == s.word;
    assert l > 0 ==> WordFrom(syls, i, l) in dict;
  }

  /** `_get_bimm_segmentation`: the segmentation with fewer segments, forward on a tie. */
  function BiMM(syls: seq<string>, dict: set<string>, maxLen: int): seq<Span>
  {
    var fmm := ForwardFrom(syls, dict, maxLen, 0);
    var bmm := BackwardTo(syls, dict, maxLen, |syls|);
    if |fmm| <= |bmm| then fmm else bmm
  }

  method BiMMSegmentation(syls: seq<string>, dict: set<string>, maxLen: int) returns (result: seq<Span>)
    ensures result == BiMM(syls, dict, maxLen)
  {
    var fmm := ForwardMM(syls, dict, maxLen);
    var bmm := BackwardMM(syls, dict, maxLen);
    result := if |fmm| <= |bmm| then fmm else bmm;
  }

  /** The chosen segmentation tiles `[0, n]` with valid spans, has no more segments than
      either pass, and is the forward one whenever the forward one is no longer. */
  lemma BiMMSound(syls: seq<string>, dict: set<string>, maxLen: int)
    ensures Tiles(BiMM(syls, dict, maxLen), 0, |syls|)
    ensures forall k :: 0 <= k < |BiMM(syls, dict, maxLen)| ==> IsMatchSpan(syls, dict, maxLen, BiMM(syls, dict, maxLen)[k])
    ensures |BiMM(syls, dict, maxLen)| <= |ForwardFrom(syls, dict, maxLen, 0)|
    ensures |BiMM(syls, dict, maxLen)| <= |BackwardTo(syls, dict, maxLen, |syls|)|
    ensures |ForwardFrom(syls, dict, maxLen, 0)| <= |BackwardTo(syls, dict, maxLen, |syls|)| ==>
      BiMM(syls, dict, maxLen) == ForwardFrom(syls, dict, maxLen, 0)
    ensures |ForwardFrom(syls, dict, maxLen, 0)| > |BackwardTo(syls, dict, maxLen, |syls|)| ==>
      BiMM(syls, dict, maxLen) == BackwardTo(syls, dict, maxLen, |syls|)
  {
    var f := ForwardFrom(syls, dict, maxLen, 0);
    var b := BackwardTo(syls, dict, maxLen, |syls|);
    if |f| <= |b| {
      assert BiMM(syls, dict, maxLen) == f;
      ForwardSound(syls, dict, maxLen, 0);
      forall k | 0 <= k < |f| ensures IsMatchSpan(syls, dict, maxLen, f[k]) {
        assert ForwardSpan(syls, dict, maxLen, f[k]);
      }
    } else {
      assert BiMM(syls, dict, maxLen) == b;
      BackwardSound(syls, dict, maxLen, |syls|);
      forall k | 0 <= k < |b| ensures IsMatchSpan(syls, dict, maxLen, b[k]) {
        assert BackwardSpan(syls, dict, maxLen, b[k]);
      }
    }
  }

  /** The Bi-MM edges added to `dag[i]`, in the order of the spans. */
  function EdgesAt(spans: seq<Span>, i: nat): (r: seq<Edge>)
    ensures forall k :: 0 <= k < |r| ==> r[k].bimm && Span(i, r[k].end, r[k].word) in spans
  {
    if |spans| == 0 then []
    else
      var last := spans[|spans| - 1];
      var init := EdgesAt(spans[..|spans| - 1], i);
      assert forall k :: 0 <= k < |init| ==> Span(i, init[k].end, init[k].word) in spans[..|spans| - 1];
      init + (if last.start == i then [Edge(last.end, last.word, true)] else [])
  }

  /** `for start, end, word in bimmpath: dag[start].append((end, word, True))`. */
  method InjectBiMM(dag: seq<seq<Edge>>, spans: seq<Span>) returns (dag': seq<seq<Edge>>)
    requires forall k :: 0 <= k < |spans| ==> spans[k].start < |dag|
    ensures |dag'| == |dag|
    ensures forall i :: 0 <= i < |dag| ==> dag'[i] == dag[i] + EdgesAt(spans, i)
  {
    dag' := dag;
    var k := 0;
    while k < |spans|
      invariant 0 <= k <= |spans| && |dag'| == |dag|
      invariant forall i :: 0 <= i < |dag| ==> dag'[i] == dag[i] + EdgesAt(spans[..k], i)
    {
      var s := spans[k];
      assert spans[..k + 1][..k] == spans[..k];
      dag' := dag'[s.start := dag'[s.start] + [Edge(s.end, s.word, true)]];
      k := k + 1;
    }
    assert spans[..|spans|] == spans;
  }

  /** Injecting valid Bi-MM spans keeps the lattice a forward DAG that spells the
      syllables, and keeps every edge it already had (so every single-syllable edge). */
  lemma InjectedDag(dag: seq<seq<Edge>>, dag': seq<seq<Edge>>, spans: seq<Span>, syls: seq<string>, dict: set<string>, maxLen: int)
    requires IsForwardDag(dag, |syls|) && SpellsSyllables(dag, syls, dict)
    requires forall k :: 0 <= k < |spans| ==> IsMatchSpan(syls, dict, maxLen, spans[k])
    requires |dag'| == |dag|
    requires forall i :: 0 <= i < |dag| ==> dag'[i] == dag[i] + EdgesAt(spans, i)
    ensures IsForwardDag(dag', |syls|) && SpellsSyllables(dag', syls, dict)
    ensures HasStepEdges(dag) ==> HasStepEdges(dag')
  {
    forall i, k | 0 <= i < |dag'| && 0 <= k < |dag'[i]|
      ensures i < dag'[i][k].end <= |syls|
      ensures dag'[i][k].word == Word(syls, i, dag'[i][k].end) && Qualifies(syls, dict, i, dag'[i][k].end)
    {
      if k >= |dag[i]| {
        var e := EdgesAt(spans, i)[k - |dag[i]|];
        assert Span(i, e.end, e.word) in spans;
      }
    }
    if HasStepEdges(dag) {
      forall i | 0 <= i < |dag'| ensures HasEdgeTo(dag'[i], i + 1) {
        var k :| 0 <= k < |dag[i]| && dag[i][k].end == i + 1;
        assert dag'[i][k] == dag[i][k];
      }
    }
  }
}
