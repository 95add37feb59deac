/**
 * The Python string operations the segmenter relies on, written out over `seq<char>`:
 * `''.join`, `' '.join`, `str.strip`, `re.sub(r'\s+', ' ', ...)`, `str.split()`,
 * `str.split(c)`, `str.replace`, `in` and `str.endswith`.
 */
module Strings {
  import opened Chars

  /** `''.join(ss)`. */
  function Concat(ss: seq<string>): string
  {
    if |ss| == 0 then "" else ss[0] + Concat(ss[1..])
  }

  lemma {:induction false} ConcatAppend(a: seq<string>, b: seq<string>)
    ensures Concat(a + b) == Concat(a) + Concat(b)
  {
    if |a| == 0 {
      assert a + b == b;
    } else {
      assert (a + b)[1..] == a[1..] + b;
      ConcatAppend(a[1..], b);
    }
  }

  lemma ConcatSingle(w: string)
    ensures Concat([w]) == w
  {
    assert [w][1..] == [];
  }

  /** `' '.join(ss)`. */
  function JoinSpace(ss: seq<string>): string
  {
    if |ss| == 0 then "" else if |ss| == 1 then ss[0] else ss[0] + " " + JoinSpace(ss[1..])
  }

  /** The characters of `s` that are not whitespace, in order. */
  function NonWs(s: string): string
  {
    if |s| == 0 then "" else (if IsWs(s[0]) then "" else [s[0]]) + NonWs(s[1..])
  }

  lemma {:induction false} NonWsAppend(a: string, b: string)
    ensures NonWs(a + b) == NonWs(a) + NonWs(b)
  {
    if |a| == 0 {
      assert a + b == b;
    } else {
      assert (a + b)[1..] == a[1..] + b;
      NonWsAppend(a[1..], b);
    }
  }

  lemma {:induction false} NonWsOfWs(s: string)
    requires forall k :: 0 <= k < |s| ==> IsWs(s[k])
    ensures NonWs(s) == ""
  {
    if |s| > 0 {
      NonWsOfWs(s[1..]);
    }
  }

  lemma {:induction false} NonWsOfWord(s: string)
    requires forall k :: 0 <= k < |s| ==> !IsWs(s[k])
    ensures NonWs(s) == s
  {
    if |s| > 0 {
      NonWsOfWord(s[1..]);
    }
  }

  lemma {:induction false} NonWsMembers(s: string, c: char)
    requires !IsWs(c)
    ensures c in NonWs(s) <==> c in s
  {
    if |s| > 0 {
      NonWsMembers(s[1..], c);
      assert s == [s[0]] + s[1..];
    }
  }

  /** Length of the longest whitespace prefix of `s`. */
  function WsRunLen(s: string): (r: nat)
    ensures r <= |s|
    ensures forall k :: 0 <= k < r ==> IsWs(s[k])
    ensures r < |s| ==> !IsWs(s[r])
  {
    if |s| > 0 && IsWs(s[0]) then 1 + WsRunLen(s[1..]) else 0
  }

  /** Length of the longest prefix of `s` free of whitespace. */
  function WordLen(s: string): (r: nat)
    ensures r <= |s|
    ensures forall k :: 0 <= k < r ==> !IsWs(s[k])
    ensures r < |s| ==> IsWs(s[r])
  {
    if |s| > 0 && !IsWs(s[0]) then 1 + WordLen(s[1..]) else 0
  }

  /** `s.lstrip()`. */
  function LStrip(s: string): string
  {
    s[WsRunLen(s)..]
  }

  /** `s.rstrip()`. */
  function RStrip(s: string): (r: string)
    ensures |r| <= |s| && r == s[..|r|]
    ensures forall k :: |r| <= k < |s| ==> IsWs(s[k])
    ensures |r| > 0 ==> !IsWs(r[|r| - 1])
  {
    if |s| > 0 && IsWs(s[|s| - 1]) then RStrip(s[..|s| - 1]) else s
  }

  /** `s.strip()`. */
  function Strip(s: string): string
  {
    RStrip(LStrip(s))
  }

  /** `re.sub(r'\s+', ' ', s)`: every maximal whitespace run becomes one space. */
  function CollapseWs(s: string): string
    decreases |s|
  {
    if |s| == 0 then ""
    else if IsWs(s[0]) then " " + CollapseWs(s[WsRunLen(s)..])
    else [s[0]] + CollapseWs(s[1..])
  }

  /** `re.sub(r'\s+', ' ', s.strip())`, the segmenter's whitespace normalisation. */
  function Normalize(s: string): string
  {
    CollapseWs(Strip(s))
  }

  lemma NonWsLStrip(s: string)
    ensures NonWs(LStrip(s)) == NonWs(s)
  {
    var k := WsRunLen(s);
    assert s == s[..k] + s[k..];
    NonWsAppend(s[..k], s[k..]);
    NonWsOfWs(s[..k]);
  }

  lemma NonWsRStrip(s: string)
    ensures NonWs(RStrip(s)) == NonWs(s)
  {
    var r := RStrip(s);
    assert s == r + s[|r|..];
    NonWsAppend(r, s[|r|..]);
    NonWsOfWs(s[|r|..]);
  }

  lemma NonWsStrip(s: string)
    ensures NonWs(Strip(s)) == NonWs(s)
  {
    NonWsLStrip(s);
    NonWsRStrip(LStrip(s));
  }

  lemma {:induction false} NonWsCollapse(s: string)
    ensures NonWs(CollapseWs(s)) == NonWs(s)
    decreases |s|
  {
    if |s| > 0 {
      if IsWs(s[0]) {
        var k := WsRunLen(s);
        NonWsCollapse(s[k..]);
        assert s == s[..k] + s[k..];
        NonWsAppend(s[..k], s[k..]);
        NonWsOfWs(s[..k]);
        NonWsAppend(" ", CollapseWs(s[k..]));
      } else {
        NonWsCollapse(s[1..]);
        NonWsAppend([s[0]], CollapseWs(s[1..]));
      }
    }
  }

  /** Normalising whitespace keeps every other character, in order. */
  lemma NonWsNormalize(s: string)
    ensures NonWs(Normalize(s)) == NonWs(s)
  {
    NonWsCollapse(Strip(s));
    NonWsStrip(s);
  }

  /** Joining with single spaces adds only whitespace to the plain concatenation. */
  lemma {:induction false} NonWsJoinSpace(ss: seq<string>)
    ensures NonWs(JoinSpace(ss)) == NonWs(Concat(ss))
  {
    if |ss| == 1 {
      ConcatSingle(ss[0]);
    } else if |ss| > 1 {
      NonWsJoinSpace(ss[1..]);
      NonWsAppend(ss[0] + " ", JoinSpace(ss[1..]));
      NonWsAppend(ss[0], " ");
      NonWsAppend(ss[0], Concat(ss[1..]));
    }
  }

  /** `s.split()`: the maximal runs of non-whitespace characters, in order. */
  function SplitWs(s: string): seq<string>
    decreases |s|
  {
    if |s| == 0 then []
    else if IsWs(s[0]) then SplitWs(s[1..])
    else [s[..WordLen(s)]] + SplitWs(s[WordLen(s)..])
  }

  /** Every word `split()` returns is non-empty and holds no whitespace. */
  ghost predicate IsWord(w: string)
  {
    |w| > 0 && forall k :: 0 <= k < |w| ==> !IsWs(w[k])
  }

  lemma {:induction false} SplitWsWords(s: string)
    ensures forall i :: 0 <= i < |SplitWs(s)| ==> IsWord(SplitWs(s)[i])
    ensures Concat(SplitWs(s)) == NonWs(s)
    decreases |s|
  {
    if |s| > 0 {
      if IsWs(s[0]) {
        SplitWsWords(s[1..]);
      } else {
        var k := WordLen(s);
        SplitWsWords(s[k..]);
        assert s == s[..k] + s[k..];
        NonWsAppend(s[..k], s[k..]);
        NonWsOfWord(s[..k]);
        assert SplitWs(s)[1..] == SplitWs(s[k..]);
      }
    }
  }

  /** A string without the character `c`. */
  function Remove(s: string, c: char): string
  {
    if |s| == 0 then "" else (if s[0] == c then "" else [s[0]]) + Remove(s[1..], c)
  }

  /** `s.split(sep)` for a one-character separator. */
  function SplitOn(s: string, sep: char): (r: seq<string>)
    ensures |r| > 0
  {
    if |s| == 0 then [""]
    else if s[0] == sep then [""] + SplitOn(s[1..], sep)
    else var t := SplitOn(s[1..], sep); [[s[0]] + t[0]] + t[1..]
  }

  /** Splitting and joining again without separators deletes the separators. */
  lemma {:induction false} SplitOnConcat(s: string, sep: char)
    ensures Concat(SplitOn(s, sep)) == Remove(s, sep)
  {
    if |s| > 0 {
      SplitOnConcat(s[1..], sep);
      var t := SplitOn(s[1..], sep);
      if s[0] == sep {
        assert ([""] + t)[1..] == t;
      } else {
        assert t == [t[0]] + t[1..];
        assert ([[s[0]] + t[0]] + t[1..])[1..] == t[1..];
        assert Concat(t) == t[0] + Concat(t[1..]);
      }
    }
  }

  /** `a` occurs in `s` starting at index `k`. */
  predicate OccursAt(a: string, s: string, k: int)
  {
    0 <= k <= |s| - |a| && s[k..k + |a|] == a
  }

  /** `a in s` for strings: `a` occurs as a contiguous substring of `s`. */
  predicate IsSubstring(a: string, s: string)
  {
    exists k :: 0 <= k <= |s| - |a| && OccursAt(a, s, k)
  }

  /** `s.endswith(suf)`. */
  predicate EndsWith(s: string, suf: string)
  {
    |suf| <= |s| && s[|s| - |suf|..] == suf
  }

  /** `s.replace(a, t)`: leftmost, non-overlapping replacement of every occurrence of `a`;
      an empty `a` inserts `t` before every character and at the end. */
  function Replace(s: string, a: string, t: string): string
    decreases |s|
  {
    if |a| == 0 then
      (if |s| == 0 then t else t + [s[0]] + Replace(s[1..], a, t))
    else if |s| < |a| then s
    else if s[..|a|] == a then t + Replace(s[|a|..], a, t)
    else [s[0]] + Replace(s[1..], a, t)
  }

  /** A non-empty pattern that does not occur leaves the string unchanged. */
  lemma {:induction false} ReplaceAbsent(s: string, a: string, t: string)
    requires |a| > 0 && !IsSubstring(a, s)
    ensures Replace(s, a, t) == s
    decreases |s|
  {
    if |s| >= |a| {
      assert !OccursAt(a, s, 0);
      assert !IsSubstring(a, s[1..]) by {
        if IsSubstring(a, s[1..]) {
          var k :| 0 <= k <= |s[1..]| - |a| && OccursAt(a, s[1..], k);
          assert s[k + 1..k + 1 + |a|] == s[1..][k..k + |a|];
          assert OccursAt(a, s, k + 1);
        }
      }
      ReplaceAbsent(s[1..], a, t);
    }
  }

  /** Replacing a pattern by itself changes nothing. */
  lemma {:induction false} ReplaceSelf(s: string, a: string)
    requires |a| > 0
    ensures Replace(s, a, a) == s
    decreases |s|
  {
    if |s| >= |a| {
      if s[..|a|] == a {
        ReplaceSelf(s[|a|..], a);
        assert s == s[..|a|] + s[|a|..];
      } else {
        ReplaceSelf(s[1..], a);
      }
    }
  }

  /** `s` has no leading and no trailing whitespace. */
  predicate Stripped(s: string)
  {
    |s| == 0 || (!IsWs(s[0]) && !IsWs(s[|s| - 1]))
  }

  /** `strip` leaves no whitespace at either end, and changes nothing that has none. */
  lemma StripProps(s: string)
    ensures Stripped(Strip(s))
    ensures Stripped(s) ==> Strip(s) == s
  {
    var l := LStrip(s);
    var r := RStrip(l);
    if |r| > 0 {
      assert r[0] == l[0];
    }
    if Stripped(s) && |s| > 0 {
      assert WsRunLen(s) == 0;
      assert l == s;
    }
  }

  /** The least index at or after `k` where `a` occurs in `s`, or -1. */
  function FindFrom(s: string, a: string, k: nat): (r: int)
    ensures r == -1 || (k <= r && OccursAt(a, s, r))
    ensures r == -1 ==> forall j :: k <= j ==> !OccursAt(a, s, j)
    ensures r >= 0 ==> forall j :: k <= j < r ==> !OccursAt(a, s, j)
    decreases |s| - k
  {
    if k + |a| > |s| then -1
    else if OccursAt(a, s, k) then k
    else FindFrom(s, a, k + 1)
  }

  /** `s.find(a)`: the first occurrence of `a` in `s`, or -1 when `a in s` is false. */
  function Find(s: string, a: string): (r: int)
    ensures r == -1 <==> !IsSubstring(a, s)
    ensures r >= 0 ==> OccursAt(a, s, r) && forall j :: 0 <= j < r ==> !OccursAt(a, s, j)
  {
    FindFrom(s, a, 0)
  }

  /** `s.replace(c, '')` deletes the character `c`. */
  lemma {:induction false} ReplaceByEmpty(s: string, c: char)
    ensures Replace(s, [c], "") == Remove(s, c)
    decreases |s|
  {
    if |s| > 0 {
      ReplaceByEmpty(s[1..], c);
      if s[0] == c {
        assert s[..1] == [c];
        assert s[1..] == s[|[c]|..];
      } else {
        assert s[..1] != [c];
      }
    }
  }

  /** Deleting `c` keeps every other character, loses every `c`, and keeps the order:
      the result is what is left of `s` without its `c`s. */
  lemma {:induction false} RemoveProps(s: string, c: char)
    ensures c !in Remove(s, c)
    ensures forall d :: d != c ==> (d in Remove(s, c) <==> d in s)
    ensures Remove(Remove(s, c), c) == Remove(s, c)
    ensures |Remove(s, c)| <= |s|
    decreases |s|
  {
    if |s| > 0 {
      RemoveProps(s[1..], c);
      assert s == [s[0]] + s[1..];
      var t := Remove(s, c);
      if s[0] != c {
        assert t == [s[0]] + Remove(s[1..], c);
        assert t[1..] == Remove(s[1..], c);
        assert Remove(t, c) == [s[0]] + Remove(t[1..], c);
      } else {
        assert t == Remove(s[1..], c);
      }
    }
  }

  /** Deletion distributes over concatenation. */
  lemma {:induction false} RemoveAppend(a: string, b: string, c: char)
    ensures Remove(a + b, c) == Remove(a, c) + Remove(b, c)
    decreases |a|
  {
    if |a| == 0 {
      assert a + b == b;
    } else {
      assert (a + b)[1..] == a[1..] + b;
      RemoveAppend(a[1..], b, c);
    }
  }
}
