/**
 * `HybridDAGSegmenter`: the constructor's configuration and `segment`, which
 * preprocesses a line, breaks it into syllables, builds the word lattice (with the
 * optional Bi-MM edges), decodes the best path, joins its words with spaces,
 * normalises the spacing and applies the post-editing rules.
 */
module Segmenter {
  import opened Wrappers
  import opened Strings
  import opened Lattice
  import opened Viterbi
  import Syllables
  import MaxMatch
  import Scoring
  import PostEdit
  import SpaceRemover

  /** The state of a segmenter that `segment` reads. The dictionary is `score.dict`. */
  datatype Segmenter = Segmenter(
    score: Scoring.ScoreConfig,
    maxWordLen: int,
    useBimm: bool,
    spaceMode: Option<string>,
    rules: seq<PostEdit.Rule>,
    sub: (string, string, string) -> string)

  /** What the constructor guarantees: the word length lies in `[3, 12]`. */
  predicate Valid(s: Segmenter)
  {
    3 <= s.maxWordLen <= 12
  }

  /** The constructor, with the loaded dictionary, frequency term, model and rules as
      arguments. */
  function NewSegmenter(dict: set<string>, logMean: Option<string -> real>, lm: Scoring.LanguageModel,
                        maxOrder: int, dictWeight: real, rules: seq<PostEdit.Rule>,
                        sub: (string, string, string) -> string, useBimm: bool, bimmBoost: real,
                        spaceMode: Option<string>, maxWordLen: int): (s: Segmenter)
    ensures Valid(s)
    ensures 3 <= maxWordLen <= 12 ==> s.maxWordLen == maxWordLen
    ensures s.score.dict == dict && s.rules == rules && s.useBimm == useBimm && s.spaceMode == spaceMode
  {
    Segmenter(Scoring.ScoreConfig(dict, dictWeight, logMean, lm, maxOrder, bimmBoost),
              Scoring.ClampWordLen(maxWordLen), useBimm, spaceMode, rules, sub)
  }

  /** The text `_preprocess_text` hands to the syllable breaker. */
  function Preprocessed(s: Segmenter, text: string): string
  {
    if s.spaceMode.None? || s.spaceMode.value == "" then text else SpaceRemover.ProcessLine(text, s.spaceMode.value)
  }

  /** The total of an edge; a failing syllable term (which never reaches the decoder) is 0. */
  function EdgeValue(cfg: Scoring.ScoreConfig): (string, seq<string>, bool) -> real
  {
    (w: string, h: seq<string>, b: bool) =>
      match Scoring.EdgeScore(cfg, h, w, b)
      case Success(v) => v
      case Failure(_) => 0.0
  }

  /** Some edge of the lattice carries the empty word. */
  predicate HasEmptyWord(dag: seq<seq<Edge>>)
  {
    exists i, k :: 0 <= i < |dag| && 0 <= k < |dag[i]| && dag[i][k].word == ""
  }

  /** The Bi-MM edges `segment` adds to `dag[i]`. */
  ghost function Injected(s: Segmenter, syls: seq<string>, i: nat): seq<Edge>
  {
    if s.useBimm then MaxMatch.EdgesAt(MaxMatch.BiMM(syls, s.score.dict, s.maxWordLen), i) else []
  }

  /** The line `segment` returns for the words of the best path. */
  function Finish(s: Segmenter, words: seq<string>): string
  {
    var joined := Normalize(JoinSpace(words));
    if |s.rules| == 0 then joined else PostEdit.ApplyAll(s.rules, s.sub, joined)
  }

  /** A non-empty run of syllables whose first one is non-empty spells a non-empty word. */
  lemma ConcatNonEmpty(ss: seq<string>)
    requires |ss| > 0 && ss[0] != ""
    ensures Concat(ss) != ""
  {
  }

  /** Over text without `|`, some edge of a lattice spelling the syllables carries the
      empty word exactly when the text normalises to nothing. */
  lemma {:induction false} EmptyWordIffBlank(pre: string, syls: seq<string>, dict: set<string>, dag: seq<seq<Edge>>)
    requires '|' !in pre && syls == Syllables.SyllableBreak(pre)
    requires IsForwardDag(dag, |syls|) && SpellsSyllables(dag, syls, dict) && HasStepEdges(dag)
    ensures HasEmptyWord(dag) <==> Normalize(pre) == ""
  {
    Syllables.SyllablesRoundTrip(pre);
    Syllables.SyllablesAtBoundaries(pre);
    if Normalize(pre) == "" {
      assert HasEdgeTo(dag[0], 1);
      var k :| 0 <= k < |dag[0]| && dag[0][k].end == 1;
      WordSingle(syls, 0);
      assert dag[0][k].word == "";
    } else {
      forall i, k | 0 <= i < |dag| && 0 <= k < |dag[i]|
        ensures dag[i][k].word != ""
      {
        ConcatNonEmpty(syls[i..dag[i][k].end]);
      }
    }
  }

  /** Without a language model, the total of an edge does not depend on the history. */
  lemma EdgeValueHistoryFree(cfg: Scoring.ScoreConfig)
    requires cfg.lm.Arpa? && |cfg.lm.table| == 0
    ensures forall w, h, b :: EdgeValue(cfg)(w, h, b) == EdgeValue(cfg)(w, [], b)
  {
    forall w, h, b
      ensures EdgeValue(cfg)(w, h, b) == EdgeValue(cfg)(w, [], b)
    {
      Scoring.EdgeScoreHistoryFree(cfg, h, [], w, b);
    }
  }

  /** The lattice of `segment`: the builder's rows, then the Bi-MM edges when enabled. */
  method BuildDag(s: Segmenter, syls: seq<string>) returns (ghost base: seq<seq<Edge>>, dag: seq<seq<Edge>>)
    requires Valid(s)
    ensures |base| == |syls| && forall i :: 0 <= i < |syls| ==> IsLatticeRow(syls, s.score.dict, s.maxWordLen, i, base[i])
    ensures |dag| == |syls| && forall i :: 0 <= i < |syls| ==> dag[i] == base[i] + Injected(s, syls, i)
    ensures IsForwardDag(dag, |syls|) && SpellsSyllables(dag, syls, s.score.dict) && HasStepEdges(dag)
  {
    var dict, maxLen := s.score.dict, s.maxWordLen;
    var rows := BuildLattice(syls, dict, maxLen);
    base := rows;
    LatticeIsForwardDag(syls, dict, maxLen, rows);
    if s.useBimm {
      var spans := MaxMatch.BiMMSegmentation(syls, dict, maxLen);
      MaxMatch.BiMMSound(syls, dict, maxLen);
      dag := MaxMatch.InjectBiMM(rows, spans);
      MaxMatch.InjectedDag(rows, dag, spans, syls, dict, maxLen);
    } else {
      dag := rows;
      assert forall i :: 0 <= i < |syls| ==> dag[i] == base[i] + [];
    }
  }

  /** The tables the Viterbi pass fills: `scores`, `paths`, `histories`, and for each
      position the index of the edge its back pointer came through. */
  datatype DecodeState = DecodeState(
    scores: seq<Option<real>>,
    paths: seq<Option<Back>>,
    histories: seq<seq<string>>,
    via: seq<nat>)

  /** `steps` is the path the Viterbi pass of oppa_word.py:302-319 keeps: `st` is the
      state the pass ends in with the edge values of `cfg`, and `steps` is its
      back-pointer trace from position `n`. */
  ghost predicate ViterbiChoice(dag: seq<seq<Edge>>, n: nat, cfg: Scoring.ScoreConfig, st: DecodeState, steps: seq<Step>)
  {
    && Decoded(dag, n, EdgeValue(cfg), st.scores, st.paths, st.histories, st.via)
    && steps == TracePath(st.paths, st.via, n)
  }

  /** The decoder and the backtrace: the words of the path the Viterbi pass keeps, a
      path through the whole lattice spelling the syllables, that scores best among all
      paths when there is no language model. */
  method BestPath(dag: seq<seq<Edge>>, syls: seq<string>, dict: set<string>, cfg: Scoring.ScoreConfig)
    returns (words: seq<string>, ghost steps: seq<Step>, ghost st: DecodeState)
    requires IsForwardDag(dag, |syls|) && SpellsSyllables(dag, syls, dict) && HasStepEdges(dag)
    ensures ViterbiChoice(dag, |syls|, cfg, st, steps)
    ensures IsPath(dag, steps, |syls|) && PathWords(dag, steps, |syls|) == words
    ensures Concat(words) == Concat(syls)
    ensures cfg.lm.Arpa? && |cfg.lm.table| == 0 ==>
      forall other :: IsPath(dag, other, |syls|) ==>
        PathScore(dag, EdgeValue(cfg), other, |syls|) <= PathScore(dag, EdgeValue(cfg), steps, |syls|)
  {
    var n := |syls|;
    var score := EdgeValue(cfg);
    var scores, paths, histories, via := Decode(dag, n, score);
    forall j | 0 < j < |paths|
      ensures paths[j].Some? && paths[j].value.prev < j
    {
      AllReached(dag, n, score, scores, paths, histories, via, j);
    }
    words := Backtrace(paths, n);
    AllReached(dag, n, score, scores, paths, histories, via, n);
    HistoryIsTrace(dag, n, score, scores, paths, histories, via, n);
    TraceIsPath(dag, n, score, scores, paths, histories, via, n);
    steps := TracePath(paths, via, n);
    st := DecodeState(scores, paths, histories, via);
    PathSpells(dag, syls, dict, steps, n);
    assert syls[0..n] == syls;
    if cfg.lm.Arpa? && |cfg.lm.table| == 0 {
      EdgeValueHistoryFree(cfg);
      forall other | IsPath(dag, other, n)
        ensures PathScore(dag, score, other, n) <= PathScore(dag, score, steps, n)
      {
        PathBounded(dag, n, score, scores, paths, histories, via, other, n);
      }
    }
  }

  /** The lattice of `segment` over `syls`: every row is the builder's row followed by
      the Bi-MM edges starting there. */
  ghost predicate SegmentDag(s: Segmenter, syls: seq<string>, dag: seq<seq<Edge>>)
  {
    && |dag| == |syls| && IsForwardDag(dag, |syls|)
    && forall i :: 0 <= i < |syls| ==> SegmentRow(s, syls, i, dag[i])
  }

  /** `row` is the builder's row at `i` followed by the Bi-MM edges starting at `i`. */
  ghost predicate SegmentRow(s: Segmenter, syls: seq<string>, i: nat, row: seq<Edge>)
    requires i < |syls|
  {
    exists k: nat :: k <= |row| && IsLatticeRow(syls, s.score.dict, s.maxWordLen, i, row[..k])
                     && row[k..] == Injected(s, syls, i)
  }

  /** `words` is the line spelled by the path the Viterbi pass keeps, which runs through
      the whole lattice and is best among all paths when there is no language model. */
  ghost predicate BestSegmentation(s: Segmenter, syls: seq<string>, dag: seq<seq<Edge>>, st: DecodeState, steps: seq<Step>, words: seq<string>)
  {
    && ViterbiChoice(dag, |syls|, s.score, st, steps)
    && IsPath(dag, steps, |syls|) && PathWords(dag, steps, |syls|) == words
    && Concat(words) == Concat(syls)
    && (s.score.lm.Arpa? && |s.score.lm.table| == 0 ==>
          forall other :: IsPath(dag, other, |syls|) ==>
            PathScore(dag, EdgeValue(s.score), other, |syls|) <= PathScore(dag, EdgeValue(s.score), steps, |syls|))
  }

  lemma SegmentDagOfRows(s: Segmenter, syls: seq<string>, base: seq<seq<Edge>>, dag: seq<seq<Edge>>)
    requires |base| == |syls| && forall i :: 0 <= i < |syls| ==> IsLatticeRow(syls, s.score.dict, s.maxWordLen, i, base[i])
    requires |dag| == |syls| && forall i :: 0 <= i < |syls| ==> dag[i] == base[i] + Injected(s, syls, i)
    requires IsForwardDag(dag, |syls|)
    ensures SegmentDag(s, syls, dag)
  {
    forall i | 0 <= i < |syls|
      ensures SegmentRow(s, syls, i, dag[i])
    {
      var k: nat := |base[i]|;
      assert dag[i][..k] == base[i];
      assert dag[i][k..] == Injected(s, syls, i);
      assert k <= |dag[i]| && IsLatticeRow(syls, s.score.dict, s.maxWordLen, i, dag[i][..k]);
    }
  }

  /** Joining, normalising and dropping whitespace leaves the characters of the
      syllables, which are those of the normalised text less its `|` characters. */
  lemma FinishKeepsText(s: Segmenter, pre: string, words: seq<string>)
    requires |s.rules| == 0 && Concat(words) == Concat(Syllables.SyllableBreak(pre))
    ensures NonWs(Finish(s, words)) == NonWs(Remove(Normalize(pre), '|'))
  {
    NonWsNormalize(JoinSpace(words));
    NonWsJoinSpace(words);
    Syllables.SyllablesConcat(pre);
  }

  /** `segment`. It fails with `ZeroDivisionError` exactly when a frequency table is
      loaded and some edge carries the empty word, which for text without `|` is exactly
      when the preprocessed text is blank. Otherwise the line is the best path's words
      joined, normalised and post-edited; without rules it holds exactly the
      non-whitespace characters of the preprocessed text, less its `|` characters. */
  method Segment(s: Segmenter, text: string)
    returns (r: Result<string, Scoring.ScoreError>, ghost dag: seq<seq<Edge>>, ghost words: seq<string>, ghost steps: seq<Step>,
             ghost st: DecodeState)
    requires Valid(s)
    ensures SegmentDag(s, Syllables.SyllableBreak(Preprocessed(s, text)), dag)
    ensures r.Failure? <==> s.score.logMean.Some? && HasEmptyWord(dag)
    ensures '|' !in Preprocessed(s, text) ==>
      (r.Failure? <==> s.score.logMean.Some? && Normalize(Preprocessed(s, text)) == "")
    ensures r.Success? ==>
      && BestSegmentation(s, Syllables.SyllableBreak(Preprocessed(s, text)), dag, st, steps, words)
      && r.value == Finish(s, words)
    ensures r.Success? && |s.rules| == 0 ==>
      NonWs(r.value) == NonWs(Remove(Normalize(Preprocessed(s, text)), '|'))
  {
    var pre := SpaceRemover.PreprocessText(text, s.spaceMode);
    assert pre == Preprocessed(s, text);
    var syls := Syllables.SyllableBreak(pre);
    r, dag, words, steps, st := SegmentSyllables(s, syls);
    if '|' !in pre {
      EmptyWordIffBlank(pre, syls, s.score.dict, dag);
    }
    if r.Success? && |s.rules| == 0 {
      FinishKeepsText(s, pre, words);
    }
  }

  /** `segment` from the syllables on: the lattice, the failure check, the best path and
      the finishing steps. */
  method SegmentSyllables(s: Segmenter, syls: seq<string>)
    returns (r: Result<string, Scoring.ScoreError>, ghost dag: seq<seq<Edge>>, ghost words: seq<string>, ghost steps: seq<Step>,
             ghost st: DecodeState)
    requires Valid(s)
    ensures SegmentDag(s, syls, dag) && SpellsSyllables(dag, syls, s.score.dict) && HasStepEdges(dag)
    ensures r.Failure? <==> s.score.logMean.Some? && HasEmptyWord(dag)
    ensures r.Success? ==> BestSegmentation(s, syls, dag, st, steps, words) && r.value == Finish(s, words)
  {
    ghost var base;
    var lattice;
    base, lattice := BuildDag(s, syls);
    dag := lattice;
    SegmentDagOfRows(s, syls, base, dag);
    if s.score.logMean.Some? && HasEmptyWord(lattice) {
      r := Failure(Scoring.ZeroDivisionError);
      words, steps, st := [], [], DecodeState([], [], [], []);
      return;
    }
    var best;
    best, steps, st := BestPath(lattice, syls, s.score.dict, s.score);
    words := best;
    var out := FinishLine(s, best);
    r := Success(out);
  }

  /** The end of `segment`: the words joined with spaces, normalised and post-edited. */
  method FinishLine(s: Segmenter, words: seq<string>) returns (out: string)
    ensures out == Finish(s, words)
  {
    out := Normalize(JoinSpace(words));
    if |s.rules| > 0 {
      out := PostEdit.PostEditLine(s.rules, s.sub, out);
    }
  }
}
