/** The error analyser of the evaluation tool: a two-pointer walk over the reference and
    hypothesis words of each line pair that sorts every mismatch into over-segmentation,
    under-segmentation or an incorrect boundary, and the `most_common(top_k)` selection of
    each category. */
module ErrorAnalysis {
  import opened Strings
  import Evaluation

  /** The particle set, code point by code point. */
  const Particles: seq<string> := [
    "\U{1015}\U{102B}",                  // ပါ
    "\U{1010}\U{101A}\U{103A}",          // တယ်
    "\U{101E}\U{100A}\U{103A}",          // သည်
    "\U{104F}",                          // ၏
    "\U{1000}\U{102D}\U{102F}",          // ကို
    "\U{1019}\U{103E}\U{102C}",          // မှာ
    "\U{1014}\U{1032}\U{1037}",          // နဲ့
    "\U{101C}\U{100A}\U{103A}\U{1038}"   // လည်း
  ]

  /** The last code point of each particle. */
  const ParticleEnds: seq<char> :=
    ['\U{102B}', '\U{103A}', '\U{103A}', '\U{104F}', '\U{102F}', '\U{102C}', '\U{1037}', '\U{1038}']

  lemma ParticleShape(i: nat)
    requires i < |Particles|
    ensures |Particles[i]| > 0 && Particles[i][|Particles[i]| - 1] == ParticleEnds[i]
  {
  }

  /** Strings with different last characters do not end with one another. */
  lemma NotSuffixByLast(s: string, suf: string)
    requires |s| > 0 && |suf| > 0 && s[|s| - 1] != suf[|suf| - 1]
    ensures !EndsWith(s, suf)
  {
    if |suf| <= |s| {
      assert s[|s| - |suf|..][|suf| - 1] == s[|s| - 1];
    }
  }

  /** A string ends with another of its length only when they are equal. */
  lemma NotSuffixSameLength(s: string, suf: string)
    requires |s| == |suf| && s != suf
    ensures !EndsWith(s, suf)
  {
    assert s[0..] == s;
  }

  /** No particle is a suffix of another. */
  lemma ParticlesSuffixFree()
    ensures forall i, j :: 0 <= i < |Particles| && 0 <= j < |Particles| && i != j ==> !EndsWith(Particles[i], Particles[j])
  {
    forall i, j | 0 <= i < |Particles| && 0 <= j < |Particles| && i != j
      ensures !EndsWith(Particles[i], Particles[j])
    {
      ParticleShape(i);
      ParticleShape(j);
      if (i == 1 && j == 2) || (i == 2 && j == 1) {
        assert Particles[1][0] != Particles[2][0];
        NotSuffixSameLength(Particles[i], Particles[j]);
      } else {
        NotSuffixByLast(Particles[i], Particles[j]);
      }
    }
  }

  /** Two suffixes of one string: the shorter is a suffix of the longer. */
  lemma SuffixesNested(s: string, a: string, b: string)
    requires EndsWith(s, a) && EndsWith(s, b)
    ensures EndsWith(b, a) || EndsWith(a, b)
  {
    if |a| <= |b| {
      assert b[|b| - |a|..] == s[|s| - |a|..];
    } else {
      assert a[|a| - |b|..] == s[|s| - |b|..];
    }
  }

  /** A word ends with at most one particle, so the order in which the set is iterated does
      not matter. */
  lemma AtMostOneParticle(w: string, i: nat, j: nat)
    requires i < |Particles| && j < |Particles|
    requires EndsWith(w, Particles[i]) && EndsWith(w, Particles[j])
    ensures i == j
  {
    ParticlesSuffixFree();
    SuffixesNested(w, Particles[i], Particles[j]);
  }

  /** The particle test: `hyp_word` ends with `p` and what is left of it occurs in
      `ref_word` (an empty stem always does). */
  predicate ParticleHit(hypWord: string, refWord: string, p: string)
  {
    EndsWith(hypWord, p) && IsSubstring(hypWord[..|hypWord| - |p|], refWord)
  }

  /** How many of the particles `ps` pass the test. */
  function HitCount(hypWord: string, refWord: string, ps: seq<string>): (r: nat)
    ensures r <= |ps|
  {
    if |ps| == 0 then 0
    else HitCount(hypWord, refWord, ps[..|ps| - 1]) + (if ParticleHit(hypWord, refWord, ps[|ps| - 1]) then 1 else 0)
  }

  lemma HitCountNext(hypWord: string, refWord: string, ps: seq<string>, i: nat)
    requires i < |ps|
    ensures HitCount(hypWord, refWord, ps[..i + 1])
      == HitCount(hypWord, refWord, ps[..i]) + (if ParticleHit(hypWord, refWord, ps[i]) then 1 else 0)
  {
    assert ps[..i + 1][..i] == ps[..i];
  }

  /** No string of `ps` is a suffix of another. */
  ghost predicate SuffixFree(ps: seq<string>)
  {
    forall i, j :: 0 <= i < |ps| && 0 <= j < |ps| && i != j ==> !EndsWith(ps[i], ps[j])
  }

  /** In a suffix-free list at most one string hits, and one does exactly when some string
      of the list passes the test. */
  lemma {:induction false} HitCountSuffixFree(hypWord: string, refWord: string, ps: seq<string>)
    requires SuffixFree(ps)
    ensures HitCount(hypWord, refWord, ps) <= 1
    ensures HitCount(hypWord, refWord, ps) == 1 <==> exists i :: 0 <= i < |ps| && ParticleHit(hypWord, refWord, ps[i])
    decreases |ps|
  {
    if |ps| > 0 {
      var init := ps[..|ps| - 1];
      var last := ps[|ps| - 1];
      assert SuffixFree(init) by {
        forall i, j | 0 <= i < |init| && 0 <= j < |init| && i != j ensures !EndsWith(init[i], init[j]) {
          assert init[i] == ps[i] && init[j] == ps[j];
        }
      }
      HitCountSuffixFree(hypWord, refWord, init);
      if ParticleHit(hypWord, refWord, last) {
        forall i | 0 <= i < |init| ensures !ParticleHit(hypWord, refWord, init[i]) {
          if ParticleHit(hypWord, refWord, init[i]) {
            assert init[i] == ps[i];
            SuffixesNested(hypWord, ps[i], last);
          }
        }
      }
      if exists i :: 0 <= i < |ps| && ParticleHit(hypWord, refWord, ps[i]) {
        var i :| 0 <= i < |ps| && ParticleHit(hypWord, refWord, ps[i]);
        if i < |init| {
          assert init[i] == ps[i];
        }
      }
    }
  }

  /** A hit on particle `i` is the only one. */
  lemma HitCountAtMostOne(hypWord: string, refWord: string, n: nat)
    requires n <= |Particles|
    ensures HitCount(hypWord, refWord, Particles[..n]) <= 1
    ensures HitCount(hypWord, refWord, Particles[..n]) == 1
      <==> exists i :: 0 <= i < n && ParticleHit(hypWord, refWord, Particles[i])
  {
    var ps := Particles[..n];
    ParticlesSuffixFree();
    assert forall i :: 0 <= i < n ==> ps[i] == Particles[i];
    HitCountSuffixFree(hypWord, refWord, ps);
  }

  /** The extension loop of cases 3 and 4: append the next word of `words` while the result
      still occurs in `target`. Returns the combined string and the end index. */
  function ExtendFrom(words: seq<string>, target: string, combined: string, end: nat): (r: (string, nat))
    ensures r.1 >= end
    ensures end <= |words| ==> r.1 <= |words| && r.0 == combined + Concat(words[end..r.1])
    decreases |words| - end
  {
    if end < |words| && IsSubstring(combined + words[end], target) then
      var r := ExtendFrom(words, target, combined + words[end], end + 1);
      ExtendStep(words, combined, end, r.1);
      r
    else
      assert end <= |words| ==> words[end..end] == [];
      (combined, end)
  }

  lemma ExtendStep(words: seq<string>, combined: string, end: nat, last: nat)
    requires end < |words| && end + 1 <= last <= |words|
    ensures combined + words[end] + Concat(words[end + 1..last]) == combined + Concat(words[end..last])
  {
    assert words[end..last] == [words[end]] + words[end + 1..last];
  }

  /** `words[i:j]` with Python's clamping of out-of-range bounds. */
  function Slice(words: seq<string>, i: nat, j: nat): (r: seq<string>)
    ensures i <= j <= |words| ==> r == words[i..j]
    ensures |r| <= |words|
  {
    if j <= i || |words| <= i then []
    else if j <= |words| then words[i..j]
    else words[i..]
  }

  /** An error key: the reference words and the hypothesis words involved (the printed key
      joins each side with `|`). */
  datatype ErrorKey = ErrorKey(refPart: seq<string>, hypPart: seq<string>)

  /** The error counters of `analyze_errors`. */
  datatype Tally = Tally(total: nat, over: multiset<ErrorKey>, under: multiset<ErrorKey>, incorrect: multiset<ErrorKey>)

  /** How many entries the three counters hold together. */
  function Entries(t: Tally): nat
  {
    |t.over| + |t.under| + |t.incorrect|
  }

  const NoErrors := Tally(0, multiset{}, multiset{}, multiset{})

  /** Cases 3 to 5 for the words `refWord` and `hypWord` with the pointers at `rp` and `hp`:
      over-segmentation, under-segmentation or an incorrect boundary. */
  function Classify(refWords: seq<string>, hypWords: seq<string>, refWord: string, hypWord: string,
                    rp: nat, hp: nat, t: Tally): (r: (nat, nat, Tally))
    ensures r.0 > rp && r.1 > hp
    ensures rp < |refWords| && hp < |hypWords| ==> r.0 <= |refWords| && r.1 <= |hypWords|
    ensures r.2.total == t.total && Entries(r.2) == Entries(t) + 1
  {
    var (combinedHyp, endHyp) := ExtendFrom(hypWords, refWord, hypWord, hp + 1);
    if combinedHyp == refWord then
      (rp + 1, endHyp, t.(over := t.over + multiset{ErrorKey([refWord], Slice(hypWords, hp, endHyp))}))
    else
      var (combinedRef, endRef) := ExtendFrom(refWords, hypWord, refWord, rp + 1);
      if combinedRef == hypWord then
        (endRef, hp + 1, t.(under := t.under + multiset{ErrorKey(Slice(refWords, rp, endRef), [hypWord])}))
      else
        (rp + 1, hp + 1, t.(incorrect := t.incorrect + multiset{ErrorKey([refWord], [hypWord])}))
  }

  /** `n` copies of `k`. */
  function Copies(k: ErrorKey, n: nat): (r: multiset<ErrorKey>)
    ensures |r| == n
  {
    if n == 0 then multiset{} else Copies(k, n - 1) + multiset{k}
  }

  /** One iteration of the walk as written: the particle loop's `continue` continues the
      `for` loop, so every hit files the pair once more and advances both pointers, and
      cases 3 to 5 then run on the stale words. A mismatch adds one error and one key, plus
      one key per particle hit. */
  function Step(refWords: seq<string>, hypWords: seq<string>, rp: nat, hp: nat, t: Tally): (r: (nat, nat, Tally))
    requires rp < |refWords| && hp < |hypWords|
    ensures r.0 > rp && r.1 > hp
    ensures refWords[rp] == hypWords[hp] ==> r == (rp + 1, hp + 1, t)
    ensures refWords[rp] != hypWords[hp] ==>
      && r.2.total == t.total + 1
      && Entries(r.2) == Entries(t) + 1 + HitCount(hypWords[hp], refWords[rp], Particles)
  {
    var refWord := refWords[rp];
    var hypWord := hypWords[hp];
    if refWord == hypWord then (rp + 1, hp + 1, t)
    else
      var hits := HitCount(hypWord, refWord, Particles);
      var t1 := t.(total := t.total + 1, incorrect := t.incorrect + Copies(ErrorKey([refWord], [hypWord]), hits));
      Classify(refWords, hypWords, refWord, hypWord, rp + hits, hp + hits, t1)
  }

  /** The pointers an iteration moves to do not depend on the counters. */
  lemma StepPointers(refWords: seq<string>, hypWords: seq<string>, rp: nat, hp: nat, t: Tally)
    requires rp < |refWords| && hp < |hypWords|
    ensures Step(refWords, hypWords, rp, hp, t).0 == Step(refWords, hypWords, rp, hp, NoErrors).0
    ensures Step(refWords, hypWords, rp, hp, t).1 == Step(refWords, hypWords, rp, hp, NoErrors).1
  {
  }

  /** The `while` loop of one line pair as written, from the pointers `rp` and `hp`. */
  function Walk(refWords: seq<string>, hypWords: seq<string>, rp: nat, hp: nat, t: Tally): Tally
    decreases |refWords| - rp
  {
    if rp < |refWords| && hp < |hypWords| then
      var (rp', hp', t') := Step(refWords, hypWords, rp, hp, t);
      Walk(refWords, hypWords, rp', hp', t')
    else t
  }

  /** The particle hits met by the walk from `rp` and `hp`. */
  function Hits(refWords: seq<string>, hypWords: seq<string>, rp: nat, hp: nat): nat
    decreases |refWords| - rp
  {
    if rp < |refWords| && hp < |hypWords| then
      var (rp', hp', _) := Step(refWords, hypWords, rp, hp, NoErrors);
      (if refWords[rp] == hypWords[hp] then 0 else HitCount(hypWords[hp], refWords[rp], Particles))
        + Hits(refWords, hypWords, rp', hp')
    else 0
  }

  /** The walk as written counts one error per mismatched pair it compares, at most one per
      word of each side, and files one key per error plus one per particle hit; a hit
      happens only on a counted error. */
  lemma {:induction false} WalkCounts(refWords: seq<string>, hypWords: seq<string>, rp: nat, hp: nat, t: Tally)
    ensures Entries(Walk(refWords, hypWords, rp, hp, t)) - Entries(t)
      == Walk(refWords, hypWords, rp, hp, t).total - t.total + Hits(refWords, hypWords, rp, hp)
    ensures t.total + Hits(refWords, hypWords, rp, hp) <= Walk(refWords, hypWords, rp, hp, t).total
    ensures rp <= |refWords| ==> Walk(refWords, hypWords, rp, hp, t).total <= t.total + |refWords| - rp
    ensures hp <= |hypWords| ==> Walk(refWords, hypWords, rp, hp, t).total <= t.total + |hypWords| - hp
    decreases |refWords| - rp
  {
    if rp < |refWords| && hp < |hypWords| {
      var (rp', hp', t') := Step(refWords, hypWords, rp, hp, t);
      StepPointers(refWords, hypWords, rp, hp, t);
      HitCountAtMostOne(hypWords[hp], refWords[rp], |Particles|);
      assert Particles[..|Particles|] == Particles;
      WalkCounts(refWords, hypWords, rp', hp', t');
    }
  }

  /** Identical lines have no errors. */
  lemma {:induction false} WalkIdentical(words: seq<string>, p: nat, t: Tally)
    ensures Walk(words, words, p, p, t) == t
    ensures Hits(words, words, p, p) == 0
    decreases |words| - p
  {
    if p < |words| {
      WalkIdentical(words, p + 1, t);
    }
  }

  /** One iteration with the particle case ending the iteration, as the other cases do. */
  function StepCorrected(refWords: seq<string>, hypWords: seq<string>, rp: nat, hp: nat, t: Tally): (r: (nat, nat, Tally))
    requires rp < |refWords| && hp < |hypWords|
    ensures rp < r.0 <= |refWords| && hp < r.1 <= |hypWords|
    ensures refWords[rp] == hypWords[hp] ==> r == (rp + 1, hp + 1, t)
    ensures refWords[rp] != hypWords[hp] ==> r.2.total == t.total + 1 && Entries(r.2) == Entries(t) + 1
  {
    var refWord := refWords[rp];
    var hypWord := hypWords[hp];
    if refWord == hypWord then (rp + 1, hp + 1, t)
    else
      var t1 := t.(total := t.total + 1);
      if HitCount(hypWord, refWord, Particles) > 0 then
        (rp + 1, hp + 1, t1.(incorrect := t1.incorrect + multiset{ErrorKey([refWord], [hypWord])}))
      else
        Classify(refWords, hypWords, refWord, hypWord, rp, hp, t1)
  }

  /** The corrected walk over one line pair from the pointers `rp` and `hp`. */
  function WalkCorrected(refWords: seq<string>, hypWords: seq<string>, rp: nat, hp: nat, t: Tally): Tally
    requires rp <= |refWords| && hp <= |hypWords|
    decreases |refWords| - rp
  {
    if rp < |refWords| && hp < |hypWords| then
      var (rp', hp', t') := StepCorrected(refWords, hypWords, rp, hp, t);
      WalkCorrected(refWords, hypWords, rp', hp', t')
    else t
  }

  /** In the corrected walk every error is filed in exactly one category, and a line pair
      has no more errors than either side has words left. */
  lemma {:induction false} WalkCorrectedCounts(refWords: seq<string>, hypWords: seq<string>, rp: nat, hp: nat, t: Tally)
    requires rp <= |refWords| && hp <= |hypWords|
    ensures Entries(WalkCorrected(refWords, hypWords, rp, hp, t)) - Entries(t)
      == WalkCorrected(refWords, hypWords, rp, hp, t).total - t.total
    ensures t.total <= WalkCorrected(refWords, hypWords, rp, hp, t).total <= t.total + |refWords| - rp
    ensures WalkCorrected(refWords, hypWords, rp, hp, t).total <= t.total + |hypWords| - hp
    decreases |refWords| - rp
  {
    if rp < |refWords| && hp < |hypWords| {
      var (rp', hp', t') := StepCorrected(refWords, hypWords, rp, hp, t);
      WalkCorrectedCounts(refWords, hypWords, rp', hp', t');
    }
  }

  /** Where the walk meets no particle hit, the code and the corrected walk agree. */
  lemma {:induction false} WalkAgreesWithoutHits(refWords: seq<string>, hypWords: seq<string>, rp: nat, hp: nat, t: Tally)
    requires rp <= |refWords| && hp <= |hypWords|
    requires Hits(refWords, hypWords, rp, hp) == 0
    ensures Walk(refWords, hypWords, rp, hp, t) == WalkCorrected(refWords, hypWords, rp, hp, t)
    decreases |refWords| - rp
  {
    if rp < |refWords| && hp < |hypWords| {
      StepPointers(refWords, hypWords, rp, hp, t);
      var (rp', hp', t') := Step(refWords, hypWords, rp, hp, t);
      if refWords[rp] != hypWords[hp] {
        var key := ErrorKey([refWords[rp]], [hypWords[hp]]);
        assert Copies(key, 0) == multiset{};
        assert t.incorrect + multiset{} == t.incorrect;
      }
      assert StepCorrected(refWords, hypWords, rp, hp, t) == (rp', hp', t');
      WalkAgreesWithoutHits(refWords, hypWords, rp', hp', t');
    }
  }

  /** The error walk of every line pair `zip` forms, accumulated, as written. */
  function AnalyzeAll(refLines: seq<string>, hypLines: seq<string>, n: nat): Tally
    requires n <= |refLines| && n <= |hypLines|
  {
    if n == 0 then NoErrors
    else Walk(SplitWs(refLines[n - 1]), SplitWs(hypLines[n - 1]), 0, 0, AnalyzeAll(refLines, hypLines, n - 1))
  }

  /** The particle hits over the first `n` line pairs. */
  function AllHits(refLines: seq<string>, hypLines: seq<string>, n: nat): nat
    requires n <= |refLines| && n <= |hypLines|
  {
    if n == 0 then 0
    else AllHits(refLines, hypLines, n - 1) + Hits(SplitWs(refLines[n - 1]), SplitWs(hypLines[n - 1]), 0, 0)
  }

  /** Over all lines, the keys filed are `total_errors` plus one per particle hit, and
      every hit is on a counted error. */
  lemma {:induction false} AnalyzeAllCounts(refLines: seq<string>, hypLines: seq<string>, n: nat)
    requires n <= |refLines| && n <= |hypLines|
    ensures Entries(AnalyzeAll(refLines, hypLines, n)) == AnalyzeAll(refLines, hypLines, n).total + AllHits(refLines, hypLines, n)
    ensures AllHits(refLines, hypLines, n) <= AnalyzeAll(refLines, hypLines, n).total
  {
    if n > 0 {
      AnalyzeAllCounts(refLines, hypLines, n - 1);
      WalkCounts(SplitWs(refLines[n - 1]), SplitWs(hypLines[n - 1]), 0, 0, AnalyzeAll(refLines, hypLines, n - 1));
    }
  }

  /** Comparing lines with themselves finds no error. */
  lemma {:induction false} AnalyzeSelf(lines: seq<string>, n: nat)
    requires n <= |lines|
    ensures AnalyzeAll(lines, lines, n) == NoErrors
  {
    if n > 0 {
      AnalyzeSelf(lines, n - 1);
      WalkIdentical(SplitWs(lines[n - 1]), 0, NoErrors);
    }
  }

  /** The corrected walk of every line pair `zip` forms, accumulated. */
  function AnalyzeAllCorrected(refLines: seq<string>, hypLines: seq<string>, n: nat): Tally
    requires n <= |refLines| && n <= |hypLines|
  {
    if n == 0 then NoErrors
    else WalkCorrected(SplitWs(refLines[n - 1]), SplitWs(hypLines[n - 1]), 0, 0, AnalyzeAllCorrected(refLines, hypLines, n - 1))
  }

  /** In the corrected analysis each error sits in exactly one category. */
  lemma {:induction false} AnalyzeAllCorrectedCounts(refLines: seq<string>, hypLines: seq<string>, n: nat)
    requires n <= |refLines| && n <= |hypLines|
    ensures Entries(AnalyzeAllCorrected(refLines, hypLines, n)) == AnalyzeAllCorrected(refLines, hypLines, n).total
  {
    if n > 0 {
      AnalyzeAllCorrectedCounts(refLines, hypLines, n - 1);
      WalkCorrectedCounts(SplitWs(refLines[n - 1]), SplitWs(hypLines[n - 1]), 0, 0, AnalyzeAllCorrected(refLines, hypLines, n - 1));
    }
  }

  /** Without any particle hit, the analysis as written is the corrected one. */
  lemma {:induction false} AnalyzeAgreesWithoutHits(refLines: seq<string>, hypLines: seq<string>, n: nat)
    requires n <= |refLines| && n <= |hypLines|
    requires AllHits(refLines, hypLines, n) == 0
    ensures AnalyzeAll(refLines, hypLines, n) == AnalyzeAllCorrected(refLines, hypLines, n)
  {
    if n > 0 {
      AnalyzeAgreesWithoutHits(refLines, hypLines, n - 1);
      WalkAgreesWithoutHits(SplitWs(refLines[n - 1]), SplitWs(hypLines[n - 1]), 0, 0, AnalyzeAll(refLines, hypLines, n - 1));
    }
  }

  /** The particle hits of the example below: the hypothesis word "kပါ" against "ka" hits
      on ပါ once, "d" against "c" hits nothing. */
  lemma ExampleHits()
    ensures HitCount("k\U{1015}\U{102B}", "ka", Particles) == 1
    ensures HitCount("d", "c", Particles) == 0
  {
    ExampleHitOnce();
    ExampleHitNone();
  }

  lemma ExampleHitOnce()
    ensures HitCount("k\U{1015}\U{102B}", "ka", Particles) == 1
  {
    var hypWord := "k\U{1015}\U{102B}";
    assert OccursAt("k", "ka", 0);
    assert hypWord[..|hypWord| - |Particles[0]|] == "k";
    assert ParticleHit(hypWord, "ka", Particles[0]);
    HitCountAtMostOne(hypWord, "ka", |Particles|);
    assert Particles[..|Particles|] == Particles;
  }

  lemma ExampleHitNone()
    ensures HitCount("d", "c", Particles) == 0
  {
    forall i | 0 <= i < |Particles| ensures !ParticleHit("d", "c", Particles[i]) {
      ParticleShape(i);
      NotSuffixByLast("d", Particles[i]);
    }
    HitCountNone("d", "c", Particles);
  }

  lemma {:induction false} HitCountNone(hypWord: string, refWord: string, ps: seq<string>)
    requires forall i :: 0 <= i < |ps| ==> !ParticleHit(hypWord, refWord, ps[i])
    ensures HitCount(hypWord, refWord, ps) == 0
    decreases |ps|
  {
    if |ps| > 0 {
      var init := ps[..|ps| - 1];
      assert forall i :: 0 <= i < |init| ==> init[i] == ps[i];
      HitCountNone(hypWord, refWord, init);
    }
  }

  /** As written, a particle hit on a mismatched pair counts that pair twice, and the next
      pair is skipped without being compared. */
  lemma ParticleQuirkAsWritten()
    ensures Walk(["ka", "c"], ["k\U{1015}\U{102B}", "d"], 0, 0, NoErrors)
      == Tally(1, multiset{}, multiset{}, multiset{ErrorKey(["ka"], ["k\U{1015}\U{102B}"]), ErrorKey(["ka"], ["k\U{1015}\U{102B}"])})
  {
    var refWords := ["ka", "c"];
    var hypWords := ["k\U{1015}\U{102B}", "d"];
    var key := ErrorKey(["ka"], ["k\U{1015}\U{102B}"]);
    ExampleHits();
    assert Copies(key, 1) == multiset{key};
    var t1 := Tally(1, multiset{}, multiset{}, multiset{key});
    assert ExtendFrom(hypWords, "ka", hypWords[0], 2) == (hypWords[0], 2);
    assert ExtendFrom(refWords, hypWords[0], "ka", 2) == ("ka", 2);
    assert |hypWords[0]| != |"ka"|;
    assert Classify(refWords, hypWords, "ka", hypWords[0], 1, 1, t1)
      == (2, 2, t1.(incorrect := t1.incorrect + multiset{key}));
    assert t1.incorrect + multiset{key} == multiset{key, key};
    assert Step(refWords, hypWords, 0, 0, NoErrors) == (2, 2, Tally(1, multiset{}, multiset{}, multiset{key, key}));
  }

  /** With the iteration ending after the hit, the pair is counted once and the next pair is
      compared and counted. */
  lemma ParticleQuirkCorrected()
    ensures WalkCorrected(["ka", "c"], ["k\U{1015}\U{102B}", "d"], 0, 0, NoErrors)
      == Tally(2, multiset{}, multiset{}, multiset{ErrorKey(["ka"], ["k\U{1015}\U{102B}"]), ErrorKey(["c"], ["d"])})
  {
    var refWords := ["ka", "c"];
    var hypWords := ["k\U{1015}\U{102B}", "d"];
    var key := ErrorKey(["ka"], ["k\U{1015}\U{102B}"]);
    ExampleHits();
    var t1 := Tally(1, multiset{}, multiset{}, multiset{key});
    assert refWords[0] != hypWords[0] by {
      assert |refWords[0]| != |hypWords[0]|;
    }
    assert HitCount(hypWords[0], refWords[0], Particles) > 0;
    assert NoErrors.(total := 1).(incorrect := multiset{} + multiset{key}) == t1;
    assert StepCorrected(refWords, hypWords, 0, 0, NoErrors) == (1, 1, t1);
    assert ExtendFrom(hypWords, "c", "d", 2) == ("d", 2);
    assert ExtendFrom(refWords, "d", "c", 2) == ("c", 2);
    assert refWords[1] == "c" && hypWords[1] == "d";
    assert HitCount(hypWords[1], refWords[1], Particles) == 0;
    var t2 := t1.(total := 2);
    assert Classify(refWords, hypWords, "c", "d", 1, 1, t2)
      == (2, 2, t2.(incorrect := t2.incorrect + multiset{ErrorKey(["c"], ["d"])}));
    assert t2.incorrect + multiset{ErrorKey(["c"], ["d"])} == multiset{key, ErrorKey(["c"], ["d"])};
    assert StepCorrected(refWords, hypWords, 1, 1, t1) == (2, 2, Tally(2, multiset{}, multiset{}, multiset{key, ErrorKey(["c"], ["d"])}));
  }

  /** The particle loop of case 2: each particle that passes the test files the pair once
      more and advances both pointers; at most one particle passes. */
  method ParticleLoop(hypWord: string, refWord: string, rp: nat, hp: nat, t: Tally)
    returns (rp': nat, hp': nat, r: Tally)
    ensures var hits := HitCount(hypWord, refWord, Particles);
      && rp' == rp + hits && hp' == hp + hits
      && r == t.(incorrect := t.incorrect + Copies(ErrorKey([refWord], [hypWord]), hits))
    ensures rp' <= rp + 1
  {
    rp', hp', r := rp, hp, t;
    var key := ErrorKey([refWord], [hypWord]);
    var hits := 0;
    for i := 0 to |Particles|
      invariant hits == HitCount(hypWord, refWord, Particles[..i])
      invariant rp' == rp + hits && hp' == hp + hits
      invariant r == t.(incorrect := t.incorrect + Copies(key, hits))
    {
      HitCountNext(hypWord, refWord, Particles, i);
      var p := Particles[i];
      if EndsWith(hypWord, p) && IsSubstring(hypWord[..|hypWord| - |p|], refWord) {
        r := r.(incorrect := r.incorrect + multiset{key});
        rp', hp', hits := rp' + 1, hp' + 1, hits + 1;
      }
    }
    assert Particles[..|Particles|] == Particles;
    HitCountAtMostOne(hypWord, refWord, |Particles|);
  }

  /** The extension loop of cases 3 and 4. */
  method Extend(words: seq<string>, target: string, start: string, from: nat) returns (combined: string, end: nat)
    ensures (combined, end) == ExtendFrom(words, target, start, from)
  {
    combined, end := start, from;
    while end < |words| && IsSubstring(combined + words[end], target)
      invariant end >= from
      invariant ExtendFrom(words, target, combined, end) == ExtendFrom(words, target, start, from)
      decreases |words| - end
    {
      combined := combined + words[end];
      end := end + 1;
    }
  }

  /** Cases 3 to 5 of one iteration. */
  method ClassifyPair(refWords: seq<string>, hypWords: seq<string>, refWord: string, hypWord: string,
                      rp: nat, hp: nat, t: Tally) returns (rp': nat, hp': nat, r: Tally)
    ensures (rp', hp', r) == Classify(refWords, hypWords, refWord, hypWord, rp, hp, t)
  {
    var combinedHyp, endHyp := Extend(hypWords, refWord, hypWord, hp + 1);
    if combinedHyp == refWord {
      r := t.(over := t.over + multiset{ErrorKey([refWord], Slice(hypWords, hp, endHyp))});
      rp', hp' := rp + 1, endHyp;
    } else {
      var combinedRef, endRef := Extend(refWords, hypWord, refWord, rp + 1);
      if combinedRef == hypWord {
        r := t.(under := t.under + multiset{ErrorKey(Slice(refWords, rp, endRef), [hypWord])});
        rp', hp' := endRef, hp + 1;
      } else {
        r := t.(incorrect := t.incorrect + multiset{ErrorKey([refWord], [hypWord])});
        rp', hp' := rp + 1, hp + 1;
      }
    }
  }

  /** One iteration of the pointer walk, as written. */
  method WalkStep(refWords: seq<string>, hypWords: seq<string>, rp: nat, hp: nat, t: Tally)
    returns (rp': nat, hp': nat, r: Tally)
    requires rp < |refWords| && hp < |hypWords|
    ensures (rp', hp', r) == Step(refWords, hypWords, rp, hp, t)
  {
    var refWord := refWords[rp];
    var hypWord := hypWords[hp];
    if refWord == hypWord {
      rp', hp', r := rp + 1, hp + 1, t;
    } else {
      ghost var hits := HitCount(hypWord, refWord, Particles);
      ghost var t1 := t.(total := t.total + 1, incorrect := t.incorrect + Copies(ErrorKey([refWord], [hypWord]), hits));
      assert Step(refWords, hypWords, rp, hp, t) == Classify(refWords, hypWords, refWord, hypWord, rp + hits, hp + hits, t1);
      r := t.(total := t.total + 1);
      rp', hp', r := ParticleLoop(hypWord, refWord, rp, hp, r);
      assert (rp', hp', r) == (rp + hits, hp + hits, t1);
      rp', hp', r := ClassifyPair(refWords, hypWords, refWord, hypWord, rp', hp', r);
    }
  }

  /** The pointer walk over one line pair, as written. */
  method AnalyzeLine(refWords: seq<string>, hypWords: seq<string>, t: Tally) returns (r: Tally)
    ensures r == Walk(refWords, hypWords, 0, 0, t)
  {
    r := t;
    var rp: nat, hp: nat := 0, 0;
    while rp < |refWords| && hp < |hypWords|
      invariant Walk(refWords, hypWords, rp, hp, r) == Walk(refWords, hypWords, 0, 0, t)
      decreases |refWords| - rp
    {
      rp, hp, r := WalkStep(refWords, hypWords, rp, hp, r);
    }
  }

  /** The keys listed in a `most_common` result. */
  ghost function ListedKeys(top: seq<(ErrorKey, nat)>): set<ErrorKey>
  {
    set i | 0 <= i < |top| :: top[i].0
  }

  lemma ListedKeysAppend(top: seq<(ErrorKey, nat)>, entry: (ErrorKey, nat))
    ensures ListedKeys(top + [entry]) == ListedKeys(top) + {entry.0}
  {
    var longer := top + [entry];
    forall key | key in ListedKeys(longer) ensures key in ListedKeys(top) + {entry.0} {
      var i :| 0 <= i < |longer| && longer[i].0 == key;
      if i < |top| {
        assert longer[i] == top[i];
      }
    }
    forall key | key in ListedKeys(top) ensures key in ListedKeys(longer) {
      var i :| 0 <= i < |top| && top[i].0 == key;
      assert longer[i] == top[i];
    }
    assert longer[|top|] == entry;
  }

  /** `counter.most_common(k)`: at most `k` distinct keys (none when `k` is not positive)
      with their counts, in non-increasing order of count; a key is left out only when `k`
      keys are listed, and then its count is no larger than any listed count. */
  ghost predicate IsTopK(counter: multiset<ErrorKey>, k: int, top: seq<(ErrorKey, nat)>)
  {
    && |top| <= (if k > 0 then k else 0)
    && (forall i :: 0 <= i < |top| ==> top[i].0 in counter && top[i].1 == counter[top[i].0])
    && (forall i, j :: 0 <= i < j < |top| ==> top[i].0 != top[j].0 && top[i].1 >= top[j].1)
    && (forall key :: key in counter && key !in ListedKeys(top)
          ==> k <= |top| && forall i :: 0 <= i < |top| ==> counter[key] <= top[i].1)
  }

  /** A non-empty counter has a key of largest count. */
  lemma MaxExists(ms: multiset<ErrorKey>)
    requires ms != multiset{}
    ensures exists x :: x in ms && forall y :: y in ms ==> ms[y] <= ms[x]
  {
    var x := MaxOf(ms);
  }

  /** A key of largest count in a non-empty counter. */
  lemma {:induction false} MaxOf(ms: multiset<ErrorKey>) returns (x: ErrorKey)
    requires ms != multiset{}
    ensures x in ms && forall y :: y in ms ==> ms[y] <= ms[x]
    decreases ms
  {
    var z :| z in ms;
    var others := ms[z := 0];
    if others == multiset{} {
      x := z;
      forall y | y in ms ensures ms[y] <= ms[z] {
        assert others[y] == (if y == z then 0 else ms[y]);
      }
    } else {
      assert others < ms;
      var w := MaxOf(others);
      x := if ms[z] >= ms[w] then z else w;
      forall y | y in ms ensures ms[y] <= ms[x] {
        if y != z {
          assert y in others;
        }
      }
    }
  }

  /** The selection so far: `top` lists keys of `counter` with their counts in
      non-increasing order, `rest` holds exactly the unlisted keys with their counts, and
      none of them outnumbers a listed key. */
  ghost predicate Selecting(counter: multiset<ErrorKey>, k: int, top: seq<(ErrorKey, nat)>, rest: multiset<ErrorKey>)
  {
    && |top| <= (if k > 0 then k else 0)
    && (forall i :: 0 <= i < |top| ==> top[i].0 in counter && top[i].1 == counter[top[i].0])
    && (forall i, j :: 0 <= i < j < |top| ==> top[i].0 != top[j].0 && top[i].1 >= top[j].1)
    && (forall key :: key in rest ==> rest[key] == counter[key])
    && (forall key :: key in counter ==> (key in rest <==> key !in ListedKeys(top)))
    && (forall key, i :: key in rest && 0 <= i < |top| ==> rest[key] <= top[i].1)
  }

  lemma SelectStep(counter: multiset<ErrorKey>, k: int, top: seq<(ErrorKey, nat)>, rest: multiset<ErrorKey>, x: ErrorKey)
    requires Selecting(counter, k, top, rest) && |top| < k
    requires x in rest && forall y :: y in rest ==> rest[y] <= rest[x]
    ensures Selecting(counter, k, top + [(x, rest[x])], rest[x := 0])
  {
    SelectStepTop(counter, k, top, rest, x);
    SelectStepRest(counter, k, top, rest, x);
  }

  /** The listed part of `SelectStep`. */
  lemma SelectStepTop(counter: multiset<ErrorKey>, k: int, top: seq<(ErrorKey, nat)>, rest: multiset<ErrorKey>, x: ErrorKey)
    requires Selecting(counter, k, top, rest) && |top| < k
    requires x in rest && forall y :: y in rest ==> rest[y] <= rest[x]
    ensures var top' := top + [(x, rest[x])];
      && |top'| <= (if k > 0 then k else 0)
      && (forall i :: 0 <= i < |top'| ==> top'[i].0 in counter && top'[i].1 == counter[top'[i].0])
      && (forall i, j :: 0 <= i < j < |top'| ==> top'[i].0 != top'[j].0 && top'[i].1 >= top'[j].1)
  {
    var top' := top + [(x, rest[x])];
    assert forall i :: 0 <= i < |top| ==> top'[i] == top[i];
    assert x !in ListedKeys(top);
  }

  /** The remaining part of `SelectStep`. */
  lemma SelectStepRest(counter: multiset<ErrorKey>, k: int, top: seq<(ErrorKey, nat)>, rest: multiset<ErrorKey>, x: ErrorKey)
    requires Selecting(counter, k, top, rest) && |top| < k
    requires x in rest && forall y :: y in rest ==> rest[y] <= rest[x]
    ensures var top' := top + [(x, rest[x])]; var rest' := rest[x := 0];
      && (forall key :: key in rest' ==> rest'[key] == counter[key])
      && (forall key :: key in counter ==> (key in rest' <==> key !in ListedKeys(top')))
      && (forall key, i :: key in rest' && 0 <= i < |top'| ==> rest'[key] <= top'[i].1)
  {
    ListedKeysAppend(top, (x, rest[x]));
    var top' := top + [(x, rest[x])];
    assert forall i :: 0 <= i < |top| ==> top'[i] == top[i];
  }

  lemma SelectDone(counter: multiset<ErrorKey>, k: int, top: seq<(ErrorKey, nat)>, rest: multiset<ErrorKey>)
    requires Selecting(counter, k, top, rest) && (k <= |top| || rest == multiset{})
    ensures IsTopK(counter, k, top)
  {
  }

  /** `most_common(k)`, picking a key of largest remaining count each time; the order
      among equal counts is an implementation detail of `Counter`. */
  method TopK(counter: multiset<ErrorKey>, k: int) returns (top: seq<(ErrorKey, nat)>)
    ensures IsTopK(counter, k, top)
  {
    top := [];
    var rest := counter;
    while |top| < k && rest != multiset{}
      invariant Selecting(counter, k, top, rest)
      decreases k - |top|
    {
      MaxExists(rest);
      var x :| x in rest && forall y :: y in rest ==> rest[y] <= rest[x];
      SelectStep(counter, k, top, rest, x);
      top := top + [(x, rest[x])];
      rest := rest[x := 0];
    }
    SelectDone(counter, k, top, rest);
  }

  /** The result of `analyze_errors`. */
  datatype ErrorReport = ErrorReport(
    over: seq<(ErrorKey, nat)>, under: seq<(ErrorKey, nat)>, incorrect: seq<(ErrorKey, nat)>, total: nat)

  /** `analyze_errors(ref_lines, hyp_lines, top_k)`: the walk over every line pair `zip`
      forms, then the `top_k` most common keys of each category. */
  method AnalyzeErrors(refLines: seq<string>, hypLines: seq<string>, topK: int) returns (report: ErrorReport)
    ensures var t := AnalyzeAll(refLines, hypLines, Evaluation.Min(|refLines|, |hypLines|));
      && report.total == t.total
      && IsTopK(t.over, topK, report.over) && IsTopK(t.under, topK, report.under)
      && IsTopK(t.incorrect, topK, report.incorrect)
    ensures var n := Evaluation.Min(|refLines|, |hypLines|);
      && Entries(AnalyzeAll(refLines, hypLines, n)) == report.total + AllHits(refLines, hypLines, n)
      && AllHits(refLines, hypLines, n) <= report.total
  {
    var n := Evaluation.Min(|refLines|, |hypLines|);
    var t := NoErrors;
    for k := 0 to n
      invariant t == AnalyzeAll(refLines, hypLines, k)
    {
      t := AnalyzeLine(SplitWs(refLines[k]), SplitWs(hypLines[k]), t);
    }
    AnalyzeAllCounts(refLines, hypLines, n);
    var over := TopK(t.over, topK);
    var under := TopK(t.under, topK);
    var incorrect := TopK(t.incorrect, topK);
    report := ErrorReport(over, under, incorrect, t.total);
  }
}
