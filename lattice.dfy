/**
 * The lattice (DAG) built by `HybridDAGSegmenter.segment` over syllable positions
 * `0..n`: from each position `i` an edge to every `j` in `(i, min(i + maxLen, n)]`
 * whose word (the syllables `i..j` joined) is in the dictionary, and always the
 * one-syllable edge to `i + 1`.
 */
module Lattice {
  import opened Strings

  /** An entry `(j, word, is_bimm)` of `dag[i]`. */
  datatype Edge = Edge(end: nat, word: string, bimm: bool)

  function Min(a: int, b: int): int
  {
    if a <= b then a else b
  }

  /** `''.join(syllables[i:j])`. */
  function Word(syls: seq<string>, i: nat, j: nat): string
    requires i <= j <= |syls|
  {
    Concat(syls[i..j])
  }

  lemma WordSingle(syls: seq<string>, i: nat)
    requires i < |syls|
    ensures Word(syls, i, i + 1) == syls[i]
  {
    assert syls[i..i + 1] == [syls[i]];
    ConcatSingle(syls[i]);
  }

  /** The condition under which the builder adds the edge `i -> j`. */
  predicate Qualifies(syls: seq<string>, dict: set<string>, i: nat, j: nat)
    requires i <= j <= |syls|
  {
    Word(syls, i, j) in dict || j - i == 1
  }

  /** `dag[i]` as the builder leaves it: exactly the qualifying edges within reach, in
      increasing order of end position, none of them flagged as Bi-MM. */
  ghost predicate IsLatticeRow(syls: seq<string>, dict: set<string>, maxLen: int, i: nat, row: seq<Edge>)
    requires i < |syls|
  {
    && (forall k :: 0 <= k < |row| ==>
          && i < row[k].end <= Min(i + maxLen, |syls|)
          && row[k].word == Word(syls, i, row[k].end)
          && Qualifies(syls, dict, i, row[k].end)
          && !row[k].bimm)
    && (forall j :: i < j <= Min(i + maxLen, |syls|) && Qualifies(syls, dict, i, j) ==>
          Edge(j, Word(syls, i, j), false) in row)
    && (forall a, b :: 0 <= a < b < |row| ==> row[a].end < row[b].end)
  }

  /** The first two nested loops of `segment`: fill `dag[i]` for every `i < n`. */
  method BuildLattice(syls: seq<string>, dict: set<string>, maxLen: int) returns (dag: seq<seq<Edge>>)
    ensures |dag| == |syls|
    ensures forall i :: 0 <= i < |syls| ==> IsLatticeRow(syls, dict, maxLen, i, dag[i])
  {
    var n := |syls|;
    dag := [];
    var i := 0;
    while i < n
      invariant 0 <= i <= n && |dag| == i
      invariant forall i' :: 0 <= i' < i ==> IsLatticeRow(syls, dict, maxLen, i', dag[i'])
    {
      var row := BuildRow(syls, dict, maxLen, i);
      dag := dag + [row];
      i := i + 1;
    }
  }

  /** The inner loop `for j in range(i + 1, min(i + max_word_len + 1, n + 1))`. */
  method BuildRow(syls: seq<string>, dict: set<string>, maxLen: int, i: nat) returns (row: seq<Edge>)
    requires i < |syls|
    ensures IsLatticeRow(syls, dict, maxLen, i, row)
  {
    var hi := Min(i + maxLen, |syls|);
    row := [];
    var j := i + 1;
    while j <= hi
      invariant i + 1 <= j && (j <= hi + 1 || hi < i + 1)
      invariant forall k :: 0 <= k < |row| ==>
          && i < row[k].end < j && row[k].end <= hi
          && row[k].word == Word(syls, i, row[k].end)
          && Qualifies(syls, dict, i, row[k].end)
          && !row[k].bimm
      invariant forall j' :: i < j' < j && j' <= hi && Qualifies(syls, dict, i, j') ==>
          Edge(j', Word(syls, i, j'), false) in row
      invariant forall a, b :: 0 <= a < b < |row| ==> row[a].end < row[b].end
    {
      var word := Word(syls, i, j);
      if word in dict || j - i == 1 {
        row := row + [Edge(j, word, false)];
      }
      j := j + 1;
    }
  }

  /** With a maximum length of at least one, `dag[i]` starts with the single-syllable edge. */
  lemma {:induction false} LatticeRowFirst(syls: seq<string>, dict: set<string>, maxLen: int, i: nat, row: seq<Edge>)
    requires i < |syls| && maxLen >= 1
    requires IsLatticeRow(syls, dict, maxLen, i, row)
    ensures |row| > 0 && row[0] == Edge(i + 1, syls[i], false)
  {
    WordSingle(syls, i);
    assert Qualifies(syls, dict, i, i + 1);
    var e := Edge(i + 1, Word(syls, i, i + 1), false);
    assert e in row;
    var k :| 0 <= k < |row| && row[k] == e;
  }

  /** A DAG over positions `0..n` whose edges all go forward. */
  ghost predicate IsForwardDag(dag: seq<seq<Edge>>, n: nat)
  {
    && |dag| == n
    && forall i, k :: 0 <= i < |dag| && 0 <= k < |dag[i]| ==> i < dag[i][k].end <= n
  }

  /** Every edge of the DAG spells the syllables it spans, and is a dictionary word or
      a single syllable. */
  ghost predicate SpellsSyllables(dag: seq<seq<Edge>>, syls: seq<string>, dict: set<string>)
    requires IsForwardDag(dag, |syls|)
  {
    forall i, k :: 0 <= i < |dag| && 0 <= k < |dag[i]| ==>
      dag[i][k].word == Word(syls, i, dag[i][k].end) && Qualifies(syls, dict, i, dag[i][k].end)
  }

  /** Some entry of `row` ends at `j`. */
  ghost predicate HasEdgeTo(row: seq<Edge>, j: nat)
  {
    exists k :: 0 <= k < |row| && row[k].end == j
  }

  /** Every position before `n` has an edge to the next position. */
  ghost predicate HasStepEdges(dag: seq<seq<Edge>>)
  {
    forall i :: 0 <= i < |dag| ==> HasEdgeTo(dag[i], i + 1)
  }

  /** The lattice the builder produces is a forward DAG spelling the syllables, with the
      single-syllable edge at every position when `maxLen >= 1`. */
  lemma {:induction false} LatticeIsForwardDag(syls: seq<string>, dict: set<string>, maxLen: int, dag: seq<seq<Edge>>)
    requires |dag| == |syls|
    requires forall i :: 0 <= i < |syls| ==> IsLatticeRow(syls, dict, maxLen, i, dag[i])
    ensures IsForwardDag(dag, |syls|)
    ensures SpellsSyllables(dag, syls, dict)
    ensures maxLen >= 1 ==> HasStepEdges(dag)
  {
    forall i, k | 0 <= i < |dag| && 0 <= k < |dag[i]|
      ensures i < dag[i][k].end <= |syls|
      ensures dag[i][k].word == Word(syls, i, dag[i][k].end) && Qualifies(syls, dict, i, dag[i][k].end)
    {
      assert IsLatticeRow(syls, dict, maxLen, i, dag[i]);
    }
    if maxLen >= 1 {
      forall i | 0 <= i < |dag| ensures HasEdgeTo(dag[i], i + 1) {
        LatticeRowFirst(syls, dict, maxLen, i, dag[i]);
        assert dag[i][0].end == i + 1;
      }
    }
  }
}
