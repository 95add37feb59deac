/**
 * The per-edge score of `HybridDAGSegmenter`: the word-length clamp of the
 * constructor, `_get_dict_score`, the dictionary branch of `_get_lm_score`
 * (backoff over an ARPA table), the context string of the binary branch,
 * and the syllable-frequency term with its division by `len(word)`.
 */
module Scoring {
  import opened Wrappers
  import opened Strings

  /** `self.unk_logprob`. */
  const UnkLogProb: real := -20.0

  /** The constructor's `max(3, min(12, max_word_len))`. */
  function ClampWordLen(x: int): (r: int)
    ensures 3 <= r <= 12
    ensures 3 <= x <= 12 ==> r == x
    ensures x <= 3 ==> r == 3
    ensures x >= 12 ==> r == 12
  {
    if x < 3 then 3 else if x > 12 then 12 else x
  }

  /** The clamp is monotone and idempotent. */
  lemma ClampMonotone(x: int, y: int)
    requires x <= y
    ensures ClampWordLen(x) <= ClampWordLen(y)
    ensures ClampWordLen(ClampWordLen(x)) == ClampWordLen(x)
  {
  }

  /** `_get_dict_score`. */
  function DictScore(dict: set<string>, weight: real, word: string): (r: real)
    ensures word in dict ==> r == weight
    ensures word !in dict ==> r == 0.0
  {
    if word in dict then weight else 0.0
  }

  /** The language model: an ARPA table read into a dictionary (empty when no model is
      loaded), or an opaque binary scorer of a context string. */
  datatype LanguageModel = Arpa(table: map<string, real>) | Binary(score: string -> real)

  /** The n-gram queried at context length `n`: the last `n` history words and `word`,
      space-joined; the bare word for `n == 0`. */
  function NGram(history: seq<string>, word: string, n: nat): string
    requires n <= |history|
  {
    if n > 0 then JoinSpace(history[|history| - n..] + [word]) else word
  }

  /** A context length of 0 queries the word alone, exactly as the joined unigram would. */
  lemma NGramUnigram(history: seq<string>, word: string)
    ensures NGram(history, word, 0) == JoinSpace([word])
    ensures |history| > 0 ==> NGram(history, word, 1) == history[|history| - 1] + " " + word
  {
    if |history| > 0 {
      var ctx := history[|history| - 1..] + [word];
      assert ctx == [history[|history| - 1], word];
      assert ctx[1..] == [word];
    }
  }

  /** The backoff loop: context lengths `n, n-1, ..., 0`, the first n-gram present wins,
      and `unk_logprob` when none is. */
  function ArpaLookup(table: map<string, real>, history: seq<string>, word: string, n: int): real
    requires n <= |history|
    decreases n + 1
  {
    if n < 0 then UnkLogProb
    else if NGram(history, word, n) in table then table[NGram(history, word, n)]
    else ArpaLookup(table, history, word, n - 1)
  }

  /** The longest context length tried: `min(len(history), max_order - 1)`. */
  function MaxContext(history: seq<string>, maxOrder: int): int
  {
    if |history| <= maxOrder - 1 then |history| else maxOrder - 1
  }

  /** The dictionary branch of `_get_lm_score`. */
  function ArpaScore(table: map<string, real>, history: seq<string>, word: string, maxOrder: int): real
  {
    ArpaLookup(table, history, word, MaxContext(history, maxOrder))
  }

  /** The value returned is that of the longest present n-gram within the context bound. */
  lemma {:induction false} ArpaHit(table: map<string, real>, history: seq<string>, word: string, n: int, m: nat)
    requires m <= n <= |history|
    requires NGram(history, word, m) in table
    requires forall k: nat :: m < k <= n ==> NGram(history, word, k) !in table
    ensures ArpaLookup(table, history, word, n) == table[NGram(history, word, m)]
    decreases n
  {
    if n > m {
      ArpaHit(table, history, word, n - 1, m);
    }
  }

  /** When no n-gram within the context bound is present the result is the floor -20. */
  lemma {:induction false} ArpaMiss(table: map<string, real>, history: seq<string>, word: string, n: int)
    requires n <= |history|
    requires forall k: nat :: k <= n ==> NGram(history, word, k) !in table
    ensures ArpaLookup(table, history, word, n) == UnkLogProb
    decreases n + 1
  {
    if n >= 0 {
      assert NGram(history, word, n) !in table;
      ArpaMiss(table, history, word, n - 1);
    }
  }

  /** Conversely, the result is either the floor or the value of some n-gram queried. */
  lemma {:induction false} ArpaValueOrigin(table: map<string, real>, history: seq<string>, word: string, n: int)
    requires n <= |history|
    ensures ArpaLookup(table, history, word, n) == UnkLogProb
      || exists k: nat :: k <= n && NGram(history, word, k) in table
           && ArpaLookup(table, history, word, n) == table[NGram(history, word, k)]
    decreases n + 1
  {
    if n >= 0 && NGram(history, word, n) !in table {
      ArpaValueOrigin(table, history, word, n - 1);
    }
  }

  /** A non-positive order bound queries nothing: `range(max_order-1, -1, -1)` is empty. */
  lemma ArpaNoOrder(table: map<string, real>, history: seq<string>, word: string, maxOrder: int)
    requires maxOrder <= 0
    ensures ArpaScore(table, history, word, maxOrder) == UnkLogProb
  {
  }

  /** Python's `s[k:]` for any integer `k`, negative indices counting from the end. */
  function SliceFrom<T>(s: seq<T>, k: int): (r: seq<T>)
    ensures |r| <= |s| && r == s[|s| - |r|..]
  {
    if k >= 0 then (if k >= |s| then [] else s[k..])
    else if |s| + k <= 0 then s else s[|s| + k..]
  }

  /** The binary branch as written: `' '.join(history[-max_order+1:] + [word])`. */
  function BinaryContextAsWritten(history: seq<string>, word: string, maxOrder: int): string
  {
    JoinSpace(SliceFrom(history, -maxOrder + 1) + [word])
  }

  /** With `max_order == 1` the slice `history[-0:]` is the whole history, so a non-empty
      history lengthens the context, while the table branch queries the word alone. */
  lemma BinaryContextOrderOne(history: seq<string>, word: string)
    requires |history| > 0
    ensures BinaryContextAsWritten(history, word, 1) == JoinSpace(history + [word])
    ensures |BinaryContextAsWritten(history, word, 1)| > |word|
    ensures NGram(history, word, MaxContext(history, 1)) == word
  {
    var ctx := history + [word];
    assert ctx[1..] == history[1..] + [word];
    JoinSpaceLast(history[1..], word);
  }

  lemma {:induction false} JoinSpaceLast(ss: seq<string>, w: string)
    ensures |JoinSpace(ss + [w])| >= |w|
  {
    if |ss| > 0 {
      assert (ss + [w])[1..] == ss[1..] + [w];
      JoinSpaceLast(ss[1..], w);
    }
  }

  /** The context of the binary scorer: the last `max_order - 1` history words (none when
      `max_order <= 1`) and the word. */
  function BinaryContext(history: seq<string>, word: string, maxOrder: int): (r: string)
    ensures maxOrder >= 1 ==> r == NGram(history, word, MaxContext(history, maxOrder))
  {
    var n := if MaxContext(history, maxOrder) < 0 then 0 else MaxContext(history, maxOrder);
    var ctx := history[|history| - n..] + [word];
    if n == 0 then
      assert ctx == [word];
      JoinSpace(ctx)
    else JoinSpace(ctx)
  }

  /** The corrected context agrees with the code whenever `max_order >= 2`. */
  lemma BinaryContextAgrees(history: seq<string>, word: string, maxOrder: int)
    requires maxOrder >= 2
    ensures BinaryContext(history, word, maxOrder) == BinaryContextAsWritten(history, word, maxOrder)
  {
    var n := MaxContext(history, maxOrder);
    assert SliceFrom(history, -maxOrder + 1) == history[|history| - n..];
  }

  /** The LM term of an edge: `_get_lm_score(...) if self.lm else 0.0`. An empty table is
      falsy; a binary model is taken to be truthy. The binary branch scores the context as
      the code builds it, which is the table branch's longest n-gram once `max_order >= 2`. */
  function LmTerm(lm: LanguageModel, maxOrder: int, history: seq<string>, word: string): (r: real)
    ensures lm.Arpa? && |lm.table| == 0 ==> r == 0.0
    ensures lm.Arpa? && |lm.table| > 0 ==> r == ArpaScore(lm.table, history, word, maxOrder)
    ensures lm.Binary? ==> r == lm.score(BinaryContextAsWritten(history, word, maxOrder))
    ensures lm.Binary? && maxOrder >= 2 ==> r == lm.score(NGram(history, word, MaxContext(history, maxOrder)))
  {
    match lm
    case Arpa(table) => if |table| == 0 then 0.0 else ArpaScore(table, history, word, maxOrder)
    case Binary(score) =>
      if maxOrder >= 2 then
        BinaryContextAgrees(history, word, maxOrder);
        score(BinaryContextAsWritten(history, word, maxOrder))
      else score(BinaryContextAsWritten(history, word, maxOrder))
  }

  datatype ScoreError = ZeroDivisionError

  /** `_get_syl_score`. `logMean(word)` stands for the mean of `log(freq.get(c, 1))` over
      the characters `c` of `word`; `None` is an empty frequency table, which scores 0. */
  function SylScore(logMean: Option<string -> real>, word: string): (r: Result<real, ScoreError>)
    ensures r.Failure? <==> logMean.Some? && word == ""
    ensures logMean.None? ==> r == Success(0.0)
  {
    match logMean
    case None => Success(0.0)
    case Some(f) => if |word| == 0 then Failure(ZeroDivisionError) else Success(f(word))
  }

  /** The scoring configuration of a segmenter. */
  datatype ScoreConfig = ScoreConfig(
    dict: set<string>,
    dictWeight: real,
    logMean: Option<string -> real>,
    lm: LanguageModel,
    maxOrder: int,
    bimmBoost: real)

  /** The total of an edge in the Viterbi loop: dictionary, syllable and LM terms, plus the
      boost on Bi-MM edges. */
  function EdgeScore(cfg: ScoreConfig, history: seq<string>, word: string, bimm: bool): (r: Result<real, ScoreError>)
    ensures r.Failure? <==> SylScore(cfg.logMean, word).Failure?
    ensures r.Success? ==>
      r.value == DictScore(cfg.dict, cfg.dictWeight, word) + SylScore(cfg.logMean, word).value
                 + LmTerm(cfg.lm, cfg.maxOrder, history, word) + (if bimm then cfg.bimmBoost else 0.0)
  {
    match SylScore(cfg.logMean, word)
    case Failure(e) => Failure(e)
    case Success(syl) =>
      var total := DictScore(cfg.dict, cfg.dictWeight, word) + syl
        + LmTerm(cfg.lm, cfg.maxOrder, history, word);
      Success(if bimm then total + cfg.bimmBoost else total)
  }

  /** Without a language model the score of an edge does not depend on the history. */
  lemma EdgeScoreHistoryFree(cfg: ScoreConfig, h1: seq<string>, h2: seq<string>, word: string, bimm: bool)
    requires cfg.lm.Arpa? && |cfg.lm.table| == 0
    ensures EdgeScore(cfg, h1, word, bimm) == EdgeScore(cfg, h2, word, bimm)
  {
  }

  /** A Bi-MM edge scores exactly the boost above the same edge unflagged. */
  lemma BimmBoostOnly(cfg: ScoreConfig, history: seq<string>, word: string)
    ensures EdgeScore(cfg, history, word, true).Success? <==> EdgeScore(cfg, history, word, false).Success?
    ensures EdgeScore(cfg, history, word, true).Success? ==>
      EdgeScore(cfg, history, word, true).value == EdgeScore(cfg, history, word, false).value + cfg.bimmBoost
  {
  }
}
