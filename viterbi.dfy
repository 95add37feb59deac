/**
 * The Viterbi loop of `HybridDAGSegmenter.segment` and its backtrace. The decoder
 * visits the positions `i = 0..n-1` in order and, within `dag[i]`, the edges in list
 * order; an edge `i -> j` replaces the best entry of `j` only when it is strictly
 * better. The score of an edge is a parameter of the decoder: a function of the word,
 * the history of words on the best path to `i`, and the Bi-MM flag. An unreached
 * position (a score of negative infinity) is `None`.
 */
module Viterbi {
  import opened Wrappers
  import opened Strings
  import opened Lattice

  /** `paths[j] = (i, word)`. */
  datatype Back = Back(prev: nat, word: string)

  /** The edge `k` of `dag[p]` is visited before the edge `kk` of `dag[i]`. */
  ghost predicate Before(p: nat, k: nat, i: nat, kk: nat)
  {
    p < i || (p == i && k < kk)
  }

  /** The lengths and the start entry of the decoder state. */
  ghost predicate Shape(dag: seq<seq<Edge>>, n: nat, scores: seq<Option<real>>, paths: seq<Option<Back>>,
                        histories: seq<seq<string>>, via: seq<nat>)
  {
    && IsForwardDag(dag, n)
    && |scores| == n + 1 && |paths| == n + 1 && |histories| == n + 1 && |via| == n + 1
    && scores[0] == Some(0.0) && paths[0] == None && histories[0] == []
  }

  /** `scores[p] + total` for the edge `k` of `dag[p]`. */
  ghost function Cand(dag: seq<seq<Edge>>, score: (string, seq<string>, bool) -> real,
                      scores: seq<Option<real>>, histories: seq<seq<string>>, p: nat, k: nat): real
    requires p < |dag| && k < |dag[p]| && p < |scores| && p < |histories| && scores[p].Some?
  {
    scores[p].value + score(dag[p][k].word, histories[p], dag[p][k].bimm)
  }

  /** Position `j` is reached exactly when it has a back pointer, and then its score and
      history are those of the edge `via[j]` of `dag[prev]`, an edge visited before
      `(i, kk)`. */
  ghost predicate Justified(dag: seq<seq<Edge>>, n: nat, score: (string, seq<string>, bool) -> real,
                            scores: seq<Option<real>>, paths: seq<Option<Back>>, histories: seq<seq<string>>,
                            via: seq<nat>, j: nat, i: nat, kk: nat)
    requires Shape(dag, n, scores, paths, histories, via) && 0 < j <= n
  {
    && (scores[j].Some? <==> paths[j].Some?)
    && (paths[j].None? ==> histories[j] == [])
    && (paths[j].Some? ==>
          var p, k := paths[j].value.prev, via[j];
          && p < j && k < |dag[p]| && Before(p, k, i, kk)
          && dag[p][k].end == j && dag[p][k].word == paths[j].value.word
          && scores[p].Some?
          && scores[j] == Some(Cand(dag, score, scores, histories, p, k))
          && histories[j] == histories[p] + [paths[j].value.word])
  }

  /** After the edge `k` of `dag[p]` has been visited from a reached `p`, its end is
      reached with at least that edge's candidate score. */
  ghost predicate Relaxed(dag: seq<seq<Edge>>, n: nat, score: (string, seq<string>, bool) -> real,
                          scores: seq<Option<real>>, histories: seq<seq<string>>, p: nat, k: nat)
    requires IsForwardDag(dag, n) && |scores| == n + 1 && |histories| == n + 1
    requires p < n && k < |dag[p]|
  {
    scores[p].Some? ==>
      && scores[dag[p][k].end].Some?
      && Cand(dag, score, scores, histories, p, k) <= scores[dag[p][k].end].value
  }

  /** Every edge into `j` visited before the chosen one scores strictly less: ties keep
      the earlier edge. */
  ghost predicate Earliest(dag: seq<seq<Edge>>, n: nat, score: (string, seq<string>, bool) -> real,
                           scores: seq<Option<real>>, paths: seq<Option<Back>>, histories: seq<seq<string>>,
                           via: seq<nat>, j: nat)
    requires Shape(dag, n, scores, paths, histories, via) && 0 < j <= n
  {
    paths[j].Some? && scores[j].Some? ==>
      forall p: nat, k: nat ::
        (p < n && k < |dag[p]| && Before(p, k, paths[j].value.prev, via[j]) && dag[p][k].end == j && scores[p].Some?)
        ==> Cand(dag, score, scores, histories, p, k) < scores[j].value
  }

  /** The loop invariant before the edge `kk` of `dag[i]`. */
  ghost predicate Inv(dag: seq<seq<Edge>>, n: nat, score: (string, seq<string>, bool) -> real,
                      scores: seq<Option<real>>, paths: seq<Option<Back>>, histories: seq<seq<string>>,
                      via: seq<nat>, i: nat, kk: nat)
  {
    && Shape(dag, n, scores, paths, histories, via)
    && i <= n && (i < n ==> kk <= |dag[i]|) && (i == n ==> kk == 0)
    && (forall j :: 0 < j <= n ==> Justified(dag, n, score, scores, paths, histories, via, j, i, kk))
    && (forall j :: 0 < j <= n ==> Earliest(dag, n, score, scores, paths, histories, via, j))
    && (forall p: nat, k: nat :: p < n && k < |dag[p]| && Before(p, k, i, kk) ==>
          Relaxed(dag, n, score, scores, histories, p, k))
  }

  /** The state the decoder ends in: every position is justified by an edge, every edge
      has been relaxed, and ties kept the earliest edge. */
  ghost predicate Decoded(dag: seq<seq<Edge>>, n: nat, score: (string, seq<string>, bool) -> real,
                          scores: seq<Option<real>>, paths: seq<Option<Back>>, histories: seq<seq<string>>,
                          via: seq<nat>)
  {
    && Shape(dag, n, scores, paths, histories, via)
    && (forall j :: 0 < j <= n ==> Justified(dag, n, score, scores, paths, histories, via, j, n, 0))
    && (forall j :: 0 < j <= n ==> Earliest(dag, n, score, scores, paths, histories, via, j))
    && (forall p: nat, k: nat :: p < n && k < |dag[p]| ==> Relaxed(dag, n, score, scores, histories, p, k))
  }

  /** The Viterbi loop of `segment`. `via[j]` is the index in `dag[prev]` of the edge
      that set `paths[j]`. */
  method Decode(dag: seq<seq<Edge>>, n: nat, score: (string, seq<string>, bool) -> real)
    returns (scores: seq<Option<real>>, paths: seq<Option<Back>>, histories: seq<seq<string>>, ghost via: seq<nat>)
    requires IsForwardDag(dag, n)
    ensures Decoded(dag, n, score, scores, paths, histories, via)
  {
    scores := [Some(0.0)] + seq(n, _ => None);
    paths := seq(n + 1, _ => None);
    histories := seq(n + 1, _ => []);
    via := seq(n + 1, _ => 0);
    var i := 0;
    while i < n
      invariant Inv(dag, n, score, scores, paths, histories, via, i, 0)
      decreases n - i
    {
      var kk := 0;
      while kk < |dag[i]|
        invariant Inv(dag, n, score, scores, paths, histories, via, i, kk)
        decreases |dag[i]| - kk
      {
        var e := dag[i][kk];
        if scores[i].Some? {
          var cand := scores[i].value + score(e.word, histories[i], e.bimm);
          if scores[e.end].None? || scores[e.end].value < cand {
            ghost var scores0, paths0, histories0, via0 := scores, paths, histories, via;
            scores := scores[e.end := Some(cand)];
            paths := paths[e.end := Some(Back(i, e.word))];
            histories := histories[e.end := histories[i] + [e.word]];
            via := via[e.end := kk];
            StepUpdate(dag, n, score, scores0, paths0, histories0, via0, i, kk, scores, paths, histories, via);
          } else {
            StepKeep(dag, n, score, scores, paths, histories, via, i, kk);
          }
        } else {
          StepKeep(dag, n, score, scores, paths, histories, via, i, kk);
        }
        kk := kk + 1;
      }
      NextRow(dag, n, score, scores, paths, histories, via, i);
      i := i + 1;
    }
    forall p: nat, k: nat | p < n && k < |dag[p]| ensures Relaxed(dag, n, score, scores, histories, p, k) {
      assert Before(p, k, n, 0);
    }
  }

  /** An edge that does not improve its end leaves the state as it is. */
  lemma StepKeep(dag: seq<seq<Edge>>, n: nat, score: (string, seq<string>, bool) -> real,
                 scores: seq<Option<real>>, paths: seq<Option<Back>>, histories: seq<seq<string>>,
                 via: seq<nat>, i: nat, kk: nat)
    requires Inv(dag, n, score, scores, paths, histories, via, i, kk)
    requires i < n && kk < |dag[i]|
    requires scores[i].Some? ==>
      scores[dag[i][kk].end].Some? && Cand(dag, score, scores, histories, i, kk) <= scores[dag[i][kk].end].value
    ensures Inv(dag, n, score, scores, paths, histories, via, i, kk + 1)
  {
    var next := kk + 1;
    forall j | 0 < j <= n ensures Justified(dag, n, score, scores, paths, histories, via, j, i, next) {
      assert Justified(dag, n, score, scores, paths, histories, via, j, i, kk);
    }
    forall p: nat, k: nat | p < n && k < |dag[p]| && Before(p, k, i, kk + 1)
      ensures Relaxed(dag, n, score, scores, histories, p, k)
    {
      if Before(p, k, i, kk) {
      }
    }
  }

  /** An edge that strictly improves its end (or reaches it first) becomes its back
      pointer, and the invariant moves past it. */
  lemma StepUpdate(dag: seq<seq<Edge>>, n: nat, score: (string, seq<string>, bool) -> real,
                   scores: seq<Option<real>>, paths: seq<Option<Back>>, histories: seq<seq<string>>,
                   via: seq<nat>, i: nat, kk: nat,
                   scores': seq<Option<real>>, paths': seq<Option<Back>>, histories': seq<seq<string>>, via': seq<nat>)
    requires Inv(dag, n, score, scores, paths, histories, via, i, kk)
    requires i < n && kk < |dag[i]| && scores[i].Some?
    requires var e := dag[i][kk]; var c := Cand(dag, score, scores, histories, i, kk);
      && (scores[e.end].None? || scores[e.end].value < c)
      && scores' == scores[e.end := Some(c)]
      && paths' == paths[e.end := Some(Back(i, e.word))]
      && histories' == histories[e.end := histories[i] + [e.word]]
      && via' == via[e.end := kk]
    ensures Inv(dag, n, score, scores', paths', histories', via', i, kk + 1)
  {
    var e := dag[i][kk];
    var c := Cand(dag, score, scores, histories, i, kk);
    assert i < e.end;
    assert forall p: nat :: p <= i ==> scores'[p] == scores[p] && histories'[p] == histories[p];
    assert forall p: nat, k: nat :: p <= i && k < |dag[p]| && scores[p].Some? ==>
      Cand(dag, score, scores', histories', p, k) == Cand(dag, score, scores, histories, p, k);
    var next := kk + 1;
    forall j | 0 < j <= n ensures Justified(dag, n, score, scores', paths', histories', via', j, i, next) {
      if j != e.end {
        assert Justified(dag, n, score, scores, paths, histories, via, j, i, kk);
      }
    }
    forall j | 0 < j <= n ensures Earliest(dag, n, score, scores', paths', histories', via', j) {
      assert Earliest(dag, n, score, scores, paths, histories, via, j);
      assert Justified(dag, n, score, scores, paths, histories, via, j, i, kk);
      if j == e.end {
        forall p: nat, k: nat | p < n && k < |dag[p]| && Before(p, k, i, kk) && dag[p][k].end == j && scores'[p].Some?
          ensures Cand(dag, score, scores', histories', p, k) < c
        {
          assert Relaxed(dag, n, score, scores, histories, p, k);
        }
      }
    }
    forall p: nat, k: nat | p < n && k < |dag[p]| && Before(p, k, i, kk + 1)
      ensures Relaxed(dag, n, score, scores', histories', p, k)
    {
      if Before(p, k, i, kk) {
        assert Relaxed(dag, n, score, scores, histories, p, k);
      }
    }
  }

  /** Once every edge of `dag[i]` has been visited the invariant holds before `dag[i + 1]`. */
  lemma NextRow(dag: seq<seq<Edge>>, n: nat, score: (string, seq<string>, bool) -> real,
                scores: seq<Option<real>>, paths: seq<Option<Back>>, histories: seq<seq<string>>,
                via: seq<nat>, i: nat)
    requires i < n && |dag| == n && Inv(dag, n, score, scores, paths, histories, via, i, |dag[i]|)
    ensures Inv(dag, n, score, scores, paths, histories, via, i + 1, 0)
  {
    var next := i + 1;
    forall j | 0 < j <= n ensures Justified(dag, n, score, scores, paths, histories, via, j, next, 0) {
      assert Justified(dag, n, score, scores, paths, histories, via, j, i, |dag[i]|);
    }
    forall p: nat, k: nat | p < n && k < |dag[p]| && Before(p, k, i + 1, 0)
      ensures Relaxed(dag, n, score, scores, histories, p, k)
    {
      assert Before(p, k, i, |dag[i]|);
    }
  }

  /** With the single-syllable edge at every position, every position is reached and has
      a back pointer to an earlier one. */
  lemma {:induction false} AllReached(dag: seq<seq<Edge>>, n: nat, score: (string, seq<string>, bool) -> real,
                                      scores: seq<Option<real>>, paths: seq<Option<Back>>,
                                      histories: seq<seq<string>>, via: seq<nat>, j: nat)
    requires Decoded(dag, n, score, scores, paths, histories, via) && HasStepEdges(dag) && j <= n
    ensures scores[j].Some?
    ensures 0 < j ==> paths[j].Some? && paths[j].value.prev < j
    decreases j
  {
    if j > 0 {
      AllReached(dag, n, score, scores, paths, histories, via, j - 1);
      assert HasEdgeTo(dag[j - 1], j);
      var k :| 0 <= k < |dag[j - 1]| && dag[j - 1][k].end == j;
      assert Relaxed(dag, n, score, scores, histories, j - 1, k);
      assert Justified(dag, n, score, scores, paths, histories, via, j, n, 0);
    }
  }

  /** The words on the back pointers from `j` to 0, in text order. */
  function Trace(paths: seq<Option<Back>>, j: nat): seq<string>
    requires j < |paths|
    decreases j
  {
    if j == 0 || paths[j].None? || paths[j].value.prev >= j then []
    else Trace(paths, paths[j].value.prev) + [paths[j].value.word]
  }

  /** `histories[j]` is the list of words on the back pointers from `j`. */
  lemma {:induction false} HistoryIsTrace(dag: seq<seq<Edge>>, n: nat, score: (string, seq<string>, bool) -> real,
                                          scores: seq<Option<real>>, paths: seq<Option<Back>>,
                                          histories: seq<seq<string>>, via: seq<nat>, j: nat)
    requires Decoded(dag, n, score, scores, paths, histories, via) && j <= n
    ensures histories[j] == Trace(paths, j)
    decreases j
  {
    if j > 0 {
      assert Justified(dag, n, score, scores, paths, histories, via, j, n, 0);
      if paths[j].Some? {
        HistoryIsTrace(dag, n, score, scores, paths, histories, via, paths[j].value.prev);
      }
    }
  }

  /** The edge `k` of `dag[from]`. */
  datatype Step = Step(from: nat, k: nat)

  /** `steps` is a path of edges of the DAG from position 0 to `j`. */
  ghost predicate IsPath(dag: seq<seq<Edge>>, steps: seq<Step>, j: nat)
    decreases |steps|
  {
    if |steps| == 0 then j == 0
    else
      var last := steps[|steps| - 1];
      && last.from < |dag| && last.k < |dag[last.from]| && dag[last.from][last.k].end == j
      && IsPath(dag, steps[..|steps| - 1], last.from)
  }

  /** The words along a path. */
  ghost function PathWords(dag: seq<seq<Edge>>, steps: seq<Step>, j: nat): seq<string>
    requires IsPath(dag, steps, j)
    decreases |steps|
  {
    if |steps| == 0 then []
    else
      var last := steps[|steps| - 1];
      PathWords(dag, steps[..|steps| - 1], last.from) + [dag[last.from][last.k].word]
  }

  /** The score of a path: each edge scored with the words before it as its history. */
  ghost function PathScore(dag: seq<seq<Edge>>, score: (string, seq<string>, bool) -> real, steps: seq<Step>, j: nat): real
    requires IsPath(dag, steps, j)
    decreases |steps|
  {
    if |steps| == 0 then 0.0
    else
      var last := steps[|steps| - 1];
      var init := steps[..|steps| - 1];
      var e := dag[last.from][last.k];
      PathScore(dag, score, init, last.from) + score(e.word, PathWords(dag, init, last.from), e.bimm)
  }

  /** The edges the back pointers were set by. */
  ghost function TracePath(paths: seq<Option<Back>>, via: seq<nat>, j: nat): seq<Step>
    requires j < |paths| && |via| == |paths|
    decreases j
  {
    if j == 0 || paths[j].None? || paths[j].value.prev >= j then []
    else TracePath(paths, via, paths[j].value.prev) + [Step(paths[j].value.prev, via[j])]
  }

  /** The back pointers of a reached position form a path of the DAG whose words are its
      history and whose score, every edge scored with the words before it, is its score. */
  lemma {:induction false} TraceIsPath(dag: seq<seq<Edge>>, n: nat, score: (string, seq<string>, bool) -> real,
                                       scores: seq<Option<real>>, paths: seq<Option<Back>>,
                                       histories: seq<seq<string>>, via: seq<nat>, j: nat)
    requires Decoded(dag, n, score, scores, paths, histories, via) && j <= n && scores[j].Some?
    ensures IsPath(dag, TracePath(paths, via, j), j)
    ensures PathWords(dag, TracePath(paths, via, j), j) == histories[j]
    ensures scores[j].value == PathScore(dag, score, TracePath(paths, via, j), j)
    decreases j
  {
    if j > 0 {
      assert Justified(dag, n, score, scores, paths, histories, via, j, n, 0);
      var p := paths[j].value.prev;
      TraceIsPath(dag, n, score, scores, paths, histories, via, p);
      var steps := TracePath(paths, via, j);
      assert steps[..|steps| - 1] == TracePath(paths, via, p);
    }
  }

  /** When the score of an edge does not depend on the history, no path from 0 to `j`
      scores more than `scores[j]`: together with `TraceIsPath`, the decoder finds a
      best path. */
  lemma {:induction false} PathBounded(dag: seq<seq<Edge>>, n: nat, score: (string, seq<string>, bool) -> real,
                                       scores: seq<Option<real>>, paths: seq<Option<Back>>,
                                       histories: seq<seq<string>>, via: seq<nat>, steps: seq<Step>, j: nat)
    requires Decoded(dag, n, score, scores, paths, histories, via) && j <= n && IsPath(dag, steps, j)
    requires forall w, h, b :: score(w, h, b) == score(w, [], b)
    ensures scores[j].Some? && PathScore(dag, score, steps, j) <= scores[j].value
    decreases |steps|
  {
    if |steps| > 0 {
      var last := steps[|steps| - 1];
      var init := steps[..|steps| - 1];
      PathBounded(dag, n, score, scores, paths, histories, via, init, last.from);
      assert Relaxed(dag, n, score, scores, histories, last.from, last.k);
      var e := dag[last.from][last.k];
      assert score(e.word, histories[last.from], e.bimm) == score(e.word, PathWords(dag, init, last.from), e.bimm) by {
        assert score(e.word, histories[last.from], e.bimm) == score(e.word, [], e.bimm);
        assert score(e.word, PathWords(dag, init, last.from), e.bimm) == score(e.word, [], e.bimm);
      }
    }
  }

  /** The words along any path to `j` spell the first `j` syllables. */
  lemma {:induction false} PathSpells(dag: seq<seq<Edge>>, syls: seq<string>, dict: set<string>, steps: seq<Step>, j: nat)
    requires IsForwardDag(dag, |syls|) && SpellsSyllables(dag, syls, dict) && IsPath(dag, steps, j)
    ensures j <= |syls| && Concat(PathWords(dag, steps, j)) == Word(syls, 0, j)
    decreases |steps|
  {
    if |steps| == 0 {
      assert syls[0..0] == [];
    } else {
      var last := steps[|steps| - 1];
      var init := steps[..|steps| - 1];
      var p := last.from;
      PathSpells(dag, syls, dict, init, p);
      var w := dag[p][last.k].word;
      assert w == Word(syls, p, j);
      ConcatAppend(PathWords(dag, init, p), [w]);
      ConcatSingle(w);
      ConcatAppend(syls[0..p], syls[p..j]);
      assert syls[0..p] + syls[p..j] == syls[0..j];
    }
  }

  /** `reversed(s)`. */
  function Reverse<T>(s: seq<T>): (r: seq<T>)
    ensures |r| == |s| && forall i :: 0 <= i < |s| ==> r[i] == s[|s| - 1 - i]
  {
    if |s| == 0 then [] else [s[|s| - 1]] + Reverse(s[..|s| - 1])
  }

  /** Every position after 0 has a back pointer to an earlier position. */
  predicate Chained(paths: seq<Option<Back>>)
  {
    forall j :: 0 < j < |paths| ==> paths[j].Some? && paths[j].value.prev < j
  }

  /** The backtrace of `segment`: follow `paths` from `n`, collecting words, then reverse.
      Unpacking `paths[idx]` needs every position on the way to have a back pointer. */
  method Backtrace(paths: seq<Option<Back>>, n: nat) returns (words: seq<string>)
    requires n < |paths| && Chained(paths)
    ensures words == Trace(paths, n)
  {
    var result: seq<string> := [];
    var idx: nat := n;
    while idx > 0
      invariant idx <= n
      invariant Trace(paths, n) == Trace(paths, idx) + Reverse(result)
      decreases idx
    {
      var back := paths[idx].value;
      assert (result + [back.word])[..|result|] == result;
      result := result + [back.word];
      idx := back.prev;
    }
    assert Trace(paths, idx) == [];
    words := Reverse(result);
  }
}
