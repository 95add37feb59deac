/**
 * Post-editing of a segmented line: the rule-line classifier of `_load_post_rules`
 * and the rule loop of `_post_edit`. A literal rule is `str.replace`; a regex rule is
 * `pattern.sub(tgt, line)`, whose regular-expression semantics is a parameter `sub`,
 * as is whether `re.compile` accepts a pattern.
 */
module PostEdit {
  import opened Wrappers
  import opened Chars
  import opened Strings

  datatype Rule = LiteralRule(src: string, tgt: string) | RegexRule(src: string, tgt: string)

  /** One of the characters `()[]{}.*+?^$\|` that make a source a regular expression. */
  predicate IsRegexMeta(c: char)
  {
    c in "()[]{}.*+?^$\\|"
  }

  predicate HasMeta(s: string)
  {
    exists i :: 0 <= i < |s| && IsRegexMeta(s[i])
  }

  const Separator: string := "|||"

  /** The classification of one line of a rule file: blank lines, comments and lines
      without `|||` are skipped; the source and target are the stripped text before and
      after the first `|||`; a source with a regex metacharacter is a regex rule, dropped
      when it does not compile. */
  function ParseRuleLine(raw: string, compiles: string -> bool): (r: Option<Rule>)
    ensures !IsSubstring(Separator, Strip(raw)) ==> r.None?
    ensures |Strip(raw)| == 0 || Strip(raw)[0] == '#' ==> r.None?
    ensures r.Some? ==> Stripped(r.value.src) && Stripped(r.value.tgt)
    ensures r.Some? ==> (r.value.RegexRule? <==> HasMeta(r.value.src))
    ensures r.Some? && r.value.RegexRule? ==> compiles(r.value.src)
  {
    var line := Strip(raw);
    if |line| == 0 || line[0] == '#' then None
    else
      var f := Find(line, Separator);
      if f < 0 then None
      else
        var src := Strip(line[..f]);
        var tgt := Strip(line[f + |Separator|..]);
        StripProps(line[..f]);
        StripProps(line[f + |Separator|..]);
        Classify(src, tgt, compiles)
  }

  /** The kind of a rule: a regex when the source has a metacharacter (dropped when it
      does not compile), a literal replacement otherwise. */
  function Classify(src: string, tgt: string, compiles: string -> bool): Option<Rule>
  {
    if HasMeta(src) then (if compiles(src) then Some(RegexRule(src, tgt)) else None)
    else Some(LiteralRule(src, tgt))
  }

  /** A rule written as `src|||tgt`. */
  function FormatRule(r: Rule): string
  {
    r.src + Separator + r.tgt
  }

  /** The classifier reads back a rule written as `src|||tgt`, provided its source and
      target carry no surrounding whitespace, its source has no `|` and does not start
      with `#`, its kind agrees with the metacharacter test, and a regex source compiles. */
  lemma ParseFormatRule(r: Rule, compiles: string -> bool)
    requires Stripped(r.src) && Stripped(r.tgt)
    requires '|' !in r.src && (|r.src| > 0 ==> r.src[0] != '#')
    requires r.RegexRule? <==> HasMeta(r.src)
    requires r.RegexRule? ==> compiles(r.src)
    ensures ParseRuleLine(FormatRule(r), compiles) == Some(r)
  {
    FormattedLine(r.src, r.tgt);
    FindSeparator(r.src, r.tgt);
    FormattedParts(r.src, r.tgt);
    assert Classify(r.src, r.tgt, compiles) == Some(r);
  }

  /** `src|||tgt` is already stripped and does not start with `#`. */
  lemma FormattedLine(src: string, tgt: string)
    requires Stripped(src) && Stripped(tgt) && (|src| > 0 ==> src[0] != '#')
    ensures Strip(src + Separator + tgt) == src + Separator + tgt
    ensures (src + Separator + tgt)[0] != '#'
  {
    var line := src + Separator + tgt;
    if |src| == 0 {
      assert line[0] == '|';
    } else {
      assert line[0] == src[0];
    }
    if |tgt| == 0 {
      assert line[|line| - 1] == '|';
    } else {
      assert line[|line| - 1] == tgt[|tgt| - 1];
    }
    assert Stripped(line);
    StripProps(line);
  }

  /** Around the separator of `src|||tgt` the classifier strips back `src` and `tgt`. */
  lemma FormattedParts(src: string, tgt: string)
    requires Stripped(src) && Stripped(tgt)
    ensures Strip((src + Separator + tgt)[..|src|]) == src
    ensures Strip((src + Separator + tgt)[|src| + |Separator|..]) == tgt
  {
    var line := src + Separator + tgt;
    assert line[..|src|] == src;
    assert line[|src| + |Separator|..] == tgt;
    StripProps(src);
    StripProps(tgt);
  }

  /** In `src|||tgt` with no `|` in `src`, the first separator follows `src`. */
  lemma FindSeparator(src: string, tgt: string)
    requires '|' !in src
    ensures Find(src + Separator + tgt, Separator) == |src|
  {
    var line := src + Separator + tgt;
    var f := |src|;
    assert OccursAt(Separator, line, f) by {
      assert line[f..f + 3] == Separator;
    }
    forall j | 0 <= j < f ensures !OccursAt(Separator, line, j) {
      assert line[j] == src[j];
    }
  }

  /** One rule applied to a line. */
  function ApplyRule(rule: Rule, sub: (string, string, string) -> string, line: string): string
  {
    match rule
    case LiteralRule(src, tgt) => Replace(line, src, tgt)
    case RegexRule(src, tgt) => sub(src, tgt, line)
  }

  /** The rules applied in file order, each to the output of the previous one. */
  function ApplyAll(rules: seq<Rule>, sub: (string, string, string) -> string, line: string): string
    decreases |rules|
  {
    if |rules| == 0 then line else ApplyAll(rules[1..], sub, ApplyRule(rules[0], sub, line))
  }

  /** `_post_edit`: the loop reassigning `line` rule by rule. */
  method PostEditLine(rules: seq<Rule>, sub: (string, string, string) -> string, line: string) returns (out: string)
    ensures out == ApplyAll(rules, sub, line)
  {
    out := line;
    var k := 0;
    while k < |rules|
      invariant 0 <= k <= |rules|
      invariant ApplyAll(rules, sub, line) == ApplyAll(rules[k..], sub, out)
    {
      assert rules[k..][1..] == rules[k + 1..];
      out := ApplyRule(rules[k], sub, out);
      k := k + 1;
    }
  }

  /** Applying a rule file split in two is applying the second part to the output of the
      first. */
  lemma {:induction false} ApplyAllAppend(r1: seq<Rule>, r2: seq<Rule>, sub: (string, string, string) -> string, line: string)
    ensures ApplyAll(r1 + r2, sub, line) == ApplyAll(r2, sub, ApplyAll(r1, sub, line))
    decreases |r1|
  {
    if |r1| == 0 {
      assert r1 + r2 == r2;
    } else {
      assert (r1 + r2)[1..] == r1[1..] + r2;
      ApplyAllAppend(r1[1..], r2, sub, ApplyRule(r1[0], sub, line));
    }
  }

  /** Literal rules whose non-empty sources do not occur leave a line unchanged. */
  lemma {:induction false} ApplyAllAbsent(rules: seq<Rule>, sub: (string, string, string) -> string, line: string)
    requires forall k :: 0 <= k < |rules| ==>
      rules[k].LiteralRule? && |rules[k].src| > 0 && !IsSubstring(rules[k].src, line)
    ensures ApplyAll(rules, sub, line) == line
    decreases |rules|
  {
    if |rules| > 0 {
      ReplaceAbsent(line, rules[0].src, rules[0].tgt);
      ApplyAllAbsent(rules[1..], sub, line);
    }
  }

  /** The classified lines of a rule file, in file order. */
  function ParseRules(lines: seq<string>, compiles: string -> bool): seq<Rule>
    decreases |lines|
  {
    if |lines| == 0 then []
    else
      var rest := ParseRules(lines[..|lines| - 1], compiles);
      match ParseRuleLine(lines[|lines| - 1], compiles)
      case None => rest
      case Some(r) => rest + [r]
  }

  /** The line loop of `_load_post_rules`, over the lines of the file. */
  method LoadRules(lines: seq<string>, compiles: string -> bool) returns (rules: seq<Rule>)
    ensures rules == ParseRules(lines, compiles)
  {
    rules := [];
    var k := 0;
    while k < |lines|
      invariant 0 <= k <= |lines|
      invariant rules == ParseRules(lines[..k], compiles)
    {
      assert lines[..k + 1][..k] == lines[..k];
      var parsed := ParseRuleLine(lines[k], compiles);
      if parsed.Some? {
        rules := rules + [parsed.value];
      }
      k := k + 1;
    }
    assert lines[..|lines|] == lines;
  }

  /** Every loaded rule is classified as its line says: surrounding whitespace stripped,
      a regex exactly when the source has a metacharacter, and only compilable regexes. */
  lemma {:induction false} LoadedRulesWellFormed(lines: seq<string>, compiles: string -> bool)
    ensures forall k :: 0 <= k < |ParseRules(lines, compiles)| ==>
      var r := ParseRules(lines, compiles)[k];
      && Stripped(r.src) && Stripped(r.tgt)
      && (r.RegexRule? <==> HasMeta(r.src))
      && (r.RegexRule? ==> compiles(r.src))
    decreases |lines|
  {
    if |lines| > 0 {
      LoadedRulesWellFormed(lines[..|lines| - 1], compiles);
    }
  }
}
