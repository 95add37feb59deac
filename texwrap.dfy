/**
 * The TeX helper `process_myanmar_text`: every maximal run of characters in U+1000..U+109F
 * is replaced by `{` + font command + ` ` + run + `}`. The replacement is a template
 * `"{" + font_command + " \1}"` that `re.sub` parses, so backslashes in the font command
 * are read as template escapes.
 */
module TexWrap {
  import opened Wrappers
  import opened Chars

  /** The length of the run of U+1000..U+109F characters at the start of `s`. */
  function BlockRunLen(s: string): (r: nat)
    ensures r <= |s|
    ensures forall k :: 0 <= k < r ==> IsMyanmarBlock(s[k])
    ensures r < |s| ==> !IsMyanmarBlock(s[r])
  {
    if |s| > 0 && IsMyanmarBlock(s[0]) then 1 + BlockRunLen(s[1..]) else 0
  }

  /** `re.sub(r"([က-႟]+)", f, s)` with `f` computing each run's replacement. */
  function SubRuns(s: string, f: string -> string): string
    decreases |s|
  {
    if |s| == 0 then ""
    else if IsMyanmarBlock(s[0]) then
      var n := BlockRunLen(s);
      f(s[..n]) + SubRuns(s[n..], f)
    else [s[0]] + SubRuns(s[1..], f)
  }

  /** The wrapper of one run with the font command taken literally. */
  function Wrapped(cmd: string, run: string): string
  {
    "{" + cmd + " " + run + "}"
  }

  /** Every Myanmar run wrapped with the font command as written. */
  function WrapRuns(s: string, cmd: string): string
  {
    SubRuns(s, run => Wrapped(cmd, run))
  }

  predicate BlockFree(s: string)
  {
    forall k :: 0 <= k < |s| ==> !IsMyanmarBlock(s[k])
  }

  /** Text without Myanmar characters is left as it is. */
  lemma {:induction false} WrapNoMyanmar(s: string, cmd: string)
    requires BlockFree(s)
    ensures WrapRuns(s, cmd) == s
    decreases |s|
  {
    if |s| > 0 {
      assert BlockFree(s[1..]) by {
        forall k | 0 <= k < |s[1..]| ensures !IsMyanmarBlock(s[1..][k]) {
          assert s[1..][k] == s[k + 1];
        }
      }
      WrapNoMyanmar(s[1..], cmd);
    }
  }

  /** A wrapper at the start of `t`: `{`, the command, a space, a maximal non-empty run, `}`. */
  predicate WrapperAt(t: string, cmd: string)
  {
    var o := |cmd| + 2;
    && |t| > o && t[..o] == "{" + cmd + " "
    && var n := BlockRunLen(t[o..]);
       n >= 1 && o + n < |t| && t[o + n] == '}'
  }

  /** An independent inverse: every wrapper is replaced by the run it holds. */
  function Unwrap(t: string, cmd: string): string
    decreases |t|
  {
    if |t| == 0 then ""
    else if WrapperAt(t, cmd) then
      var o := |cmd| + 2;
      var n := BlockRunLen(t[o..]);
      t[o..o + n] + Unwrap(t[o + n + 1..], cmd)
    else [t[0]] + Unwrap(t[1..], cmd)
  }

  /** The first `|cmd| + 2` characters of a wrapped text hold no Myanmar character. */
  lemma {:induction false} WrapStartsPlain(s: string, cmd: string)
    requires BlockFree(cmd)
    ensures forall k :: 0 <= k < |cmd| + 2 && k < |WrapRuns(s, cmd)| ==> !IsMyanmarBlock(WrapRuns(s, cmd)[k])
    decreases |s|
  {
    if |s| > 0 {
      var t := WrapRuns(s, cmd);
      if IsMyanmarBlock(s[0]) {
        var n := BlockRunLen(s);
        assert t == Wrapped(cmd, s[..n]) + WrapRuns(s[n..], cmd);
        forall k | 0 <= k < |cmd| + 2 ensures !IsMyanmarBlock(t[k]) {
          if 0 < k <= |cmd| {
            assert t[k] == cmd[k - 1];
          }
        }
      } else {
        WrapStartsPlain(s[1..], cmd);
        assert t == [s[0]] + WrapRuns(s[1..], cmd);
        forall k | 0 <= k < |cmd| + 2 && k < |t| ensures !IsMyanmarBlock(t[k]) {
          if k > 0 {
            assert t[k] == WrapRuns(s[1..], cmd)[k - 1];
          }
        }
      }
    }
  }

  /** The run length of a run followed by a non-Myanmar character. */
  lemma {:induction false} BlockRunOf(run: string, rest: string)
    requires |rest| > 0 && !IsMyanmarBlock(rest[0])
    requires forall k :: 0 <= k < |run| ==> IsMyanmarBlock(run[k])
    ensures BlockRunLen(run + rest) == |run|
    decreases |run|
  {
    if |run| > 0 {
      assert (run + rest)[1..] == run[1..] + rest;
      BlockRunOf(run[1..], rest);
    } else {
      assert run + rest == rest;
    }
  }

  /** The pieces of a wrapped run followed by `rest`. */
  lemma WrappedParts(cmd: string, run: string, rest: string)
    requires |run| > 0 && forall k :: 0 <= k < |run| ==> IsMyanmarBlock(run[k])
    ensures var t := Wrapped(cmd, run) + rest; var o := |cmd| + 2;
      && |t| > o + |run| && t[..o] == "{" + cmd + " "
      && BlockRunLen(t[o..]) == |run| && t[o + |run|] == '}'
      && t[o..o + |run|] == run && t[o + |run| + 1..] == rest
  {
    var t := Wrapped(cmd, run) + rest;
    var o := |cmd| + 2;
    assert t == ("{" + cmd + " ") + (run + ("}" + rest));
    assert t[o..] == run + ("}" + rest);
    BlockRunOf(run, "}" + rest);
  }

  /** A wrapped run is recognised by `WrapperAt` and unwrapped to itself. */
  lemma WrapperUnwraps(cmd: string, run: string, rest: string)
    requires |run| > 0 && forall k :: 0 <= k < |run| ==> IsMyanmarBlock(run[k])
    ensures WrapperAt(Wrapped(cmd, run) + rest, cmd)
    ensures Unwrap(Wrapped(cmd, run) + rest, cmd) == run + Unwrap(rest, cmd)
  {
    WrappedParts(cmd, run, rest);
  }

  /** Unwrapping undoes the wrapping whenever the font command holds no Myanmar character. */
  lemma {:induction false} UnwrapWrap(s: string, cmd: string)
    requires BlockFree(cmd)
    ensures Unwrap(WrapRuns(s, cmd), cmd) == s
    decreases |s|
  {
    if |s| > 0 {
      if IsMyanmarBlock(s[0]) {
        var n := BlockRunLen(s);
        UnwrapWrap(s[n..], cmd);
        WrapperUnwraps(cmd, s[..n], WrapRuns(s[n..], cmd));
        assert s[..n] + s[n..] == s;
      } else {
        var t := WrapRuns(s, cmd);
        var rest := WrapRuns(s[1..], cmd);
        assert t == [s[0]] + rest;
        UnwrapWrap(s[1..], cmd);
        WrapStartsPlain(s[1..], cmd);
        var o := |cmd| + 2;
        assert |t| > o ==> t[o..][0] == rest[o - 1] && !IsMyanmarBlock(rest[o - 1]);
        assert t[1..] == rest;
        assert [s[0]] + s[1..] == s;
      }
    }
  }

  /** Myanmar Extended-A (U+AA60..U+AA7F) counts as a letter for the space remover but is
      not wrapped. */
  lemma ExtendedANotWrapped(c: char, cmd: string)
    requires '\U{AA60}' <= c <= '\U{AA7F}'
    ensures IsMyanmarLetter(c) && WrapRuns([c], cmd) == [c]
  {
    WrapNoMyanmar([c], cmd);
  }

  /** A piece of a parsed replacement template: a literal character or the group `\1`. */
  datatype Piece = Lit(c: char) | Group

  /** Why a template cannot be used: an unknown escape of an ASCII letter, a backslash at the
      end, or an escape this model does not parse (group names `\g<...>`, group numbers
      other than a lone `\1`, octal escapes). */
  datatype TemplateError = BadEscape(escape: string) | NotModelled(escape: string)

  predicate IsAsciiLetter(c: char)
  {
    ('a' <= c <= 'z') || ('A' <= c <= 'Z')
  }

  predicate IsAsciiDigit(c: char)
  {
    '0' <= c <= '9'
  }

  /** The character a one-letter escape stands for, as in Python's `re` templates. */
  function EscapeOf(c: char): Option<char>
  {
    if c == 'a' then Some('\U{07}')
    else if c == 'b' then Some('\U{08}')
    else if c == 'f' then Some('\U{0C}')
    else if c == 'n' then Some('\n')
    else if c == 'r' then Some('\r')
    else if c == 't' then Some('\t')
    else if c == 'v' then Some('\U{0B}')
    else if c == '\\' then Some('\\')
    else None
  }

  /** Python's parsing of a `re.sub` replacement template. */
  function ParseTemplate(t: string): Result<seq<Piece>, TemplateError>
    decreases |t|, 0
  {
    if |t| == 0 then Success([])
    else if t[0] != '\\' then ParseAfter([Lit(t[0])], t[1..])
    else if |t| == 1 then Failure(BadEscape("\\"))
    else
      var c := t[1];
      if c == '1' && (|t| == 2 || !IsAsciiDigit(t[2])) then ParseAfter([Group], t[2..])
      else if c == 'g' || IsAsciiDigit(c) then Failure(NotModelled(t[..2]))
      else if EscapeOf(c).Some? then ParseAfter([Lit(EscapeOf(c).value)], t[2..])
      else if IsAsciiLetter(c) then Failure(BadEscape(t[..2]))
      else ParseAfter([Lit('\\'), Lit(c)], t[2..])
  }

  function ParseAfter(head: seq<Piece>, rest: string): Result<seq<Piece>, TemplateError>
    decreases |rest|, 1
  {
    var tail := ParseTemplate(rest);
    if tail.Failure? then tail else Success(head + tail.value)
  }

  /** The replacement text of one match. */
  function Fill(pieces: seq<Piece>, run: string): string
  {
    if |pieces| == 0 then ""
    else (if pieces[0].Group? then run else [pieces[0].c]) + Fill(pieces[1..], run)
  }

  /** `process_myanmar_text(content, font_command)` as written: the template is parsed once,
      before any match, so a bad one fails even on text without Myanmar characters. */
  function ProcessMyanmarTextAsWritten(content: string, fontCommand: string): Result<string, TemplateError>
  {
    var template := ParseTemplate("{" + fontCommand + " \\1}");
    if template.Failure? then Failure(template.error)
    else Success(SubRuns(content, run => Fill(template.value, run)))
  }

  /** The pieces of a string without backslashes are its characters. */
  lemma {:induction false} ParsePlain(s: string, rest: string)
    requires forall k :: 0 <= k < |s| ==> s[k] != '\\'
    ensures ParseTemplate(s + rest).Success? <==> ParseTemplate(rest).Success?
    ensures ParseTemplate(rest).Success? ==>
      ParseTemplate(s + rest).value == LitsOf(s) + ParseTemplate(rest).value
    decreases |s|
  {
    if |s| > 0 {
      assert (s + rest)[1..] == s[1..] + rest;
      ParsePlain(s[1..], rest);
    } else {
      assert s + rest == rest;
    }
  }

  function LitsOf(s: string): (r: seq<Piece>)
    ensures |r| == |s| && forall k :: 0 <= k < |s| ==> r[k] == Lit(s[k])
  {
    if |s| == 0 then [] else [Lit(s[0])] + LitsOf(s[1..])
  }

  lemma {:induction false} FillAppend(a: seq<Piece>, b: seq<Piece>, run: string)
    ensures Fill(a + b, run) == Fill(a, run) + Fill(b, run)
    decreases |a|
  {
    if |a| == 0 {
      assert a + b == b;
    } else {
      assert (a + b)[1..] == a[1..] + b;
      FillAppend(a[1..], b, run);
    }
  }

  lemma {:induction false} FillLits(s: string, run: string)
    ensures Fill(LitsOf(s), run) == s
    decreases |s|
  {
    if |s| > 0 {
      assert LitsOf(s)[1..] == LitsOf(s[1..]);
      FillLits(s[1..], run);
    }
  }

  /** One character other than a backslash parses to itself. */
  lemma ParseLit(c: char, rest: string)
    requires c != '\\'
    ensures ParseTemplate([c] + rest) == ParseAfter([Lit(c)], rest)
  {
    assert ([c] + rest)[1..] == rest;
  }

  /** The tail ` \1}` of the template parses to a space, the group and `}`. */
  lemma TemplateTail(run: string)
    ensures ParseTemplate(" \\1}") == Success([Lit(' '), Group, Lit('}')])
    ensures Fill([Lit(' '), Group, Lit('}')], run) == " " + run + "}"
  {
    ParseLit('}', "");
    assert "}" == ['}'] + "";
    assert ParseTemplate("") == Success([]);
    assert ParseAfter([Lit('}')], "") == Success([Lit('}')] + []);
    assert [Lit('}')] + [] == [Lit('}')];
    var t2 := "\\1}";
    assert t2[0] == '\\' && t2[1] == '1' && !IsAsciiDigit(t2[2]) && t2[2..] == "}";
    assert ParseTemplate(t2) == ParseAfter([Group], "}");
    assert ParseAfter([Group], "}") == Success([Group] + [Lit('}')]);
    assert [Group] + [Lit('}')] == [Group, Lit('}')];
    assert [Lit(' ')] + [Group, Lit('}')] == [Lit(' '), Group, Lit('}')];
    ParseLit(' ', t2);
    assert " \\1}" == [' '] + t2;
    assert ParseAfter([Lit(' ')], t2) == Success([Lit(' ')] + [Group, Lit('}')]);
    var p := [Lit(' '), Group, Lit('}')];
    assert p[1..] == [Group, Lit('}')] && p[1..][1..] == [Lit('}')] && p[1..][1..][1..] == [];
    assert Fill(p[1..][1..][1..], run) == "";
    assert Fill(p[1..][1..], run) == "}";
    assert Fill(p[1..], run) == run + "}";
  }

  /** The call's result once the template has parsed. */
  lemma AsWrittenParsed(content: string, cmd: string, pieces: seq<Piece>)
    requires ParseTemplate("{" + cmd + " \\1}") == Success(pieces)
    ensures ProcessMyanmarTextAsWritten(content, cmd) == Success(SubRuns(content, run => Fill(pieces, run)))
  {
  }

  /** A font command without backslashes is used literally. */
  lemma PlainCommandWraps(content: string, cmd: string)
    requires forall k :: 0 <= k < |cmd| ==> cmd[k] != '\\'
    ensures ProcessMyanmarTextAsWritten(content, cmd) == Success(WrapRuns(content, cmd))
  {
    var plain := "{" + cmd;
    assert forall k :: 0 <= k < |plain| ==> plain[k] != '\\' by {
      forall k | 0 <= k < |plain| ensures plain[k] != '\\' {
        if k > 0 {
          assert plain[k] == cmd[k - 1];
        }
      }
    }
    assert "{" + cmd + " \\1}" == plain + " \\1}";
    TemplateTail("");
    ParsePlain(plain, " \\1}");
    var tail := [Lit(' '), Group, Lit('}')];
    var pieces := LitsOf(plain) + tail;
    assert ParseTemplate(plain + " \\1}") == Success(pieces);
    AsWrittenParsed(content, cmd, pieces);
    forall run ensures Fill(pieces, run) == Wrapped(cmd, run) {
      TemplateTail(run);
      FillAppend(LitsOf(plain), tail, run);
      FillLits(plain, run);
    }
    SubRunsExt(content, run => Fill(pieces, run), run => Wrapped(cmd, run));
  }

  /** Replacement functions that agree on every run give the same result. */
  lemma {:induction false} SubRunsExt(s: string, f: string -> string, g: string -> string)
    requires forall run :: f(run) == g(run)
    ensures SubRuns(s, f) == SubRuns(s, g)
    decreases |s|
  {
    if |s| > 0 {
      if IsMyanmarBlock(s[0]) {
        SubRunsExt(s[BlockRunLen(s)..], f, g);
      } else {
        SubRunsExt(s[1..], f, g);
      }
    }
  }

  /** The pieces `{`, `\`, the command name, a space, the group and `}`. */
  function DefaultPieces(name: string): seq<Piece>
  {
    [Lit('{')] + ([Lit('\\')] + (LitsOf(name) + [Lit(' '), Group, Lit('}')]))
  }

  /** A doubled backslash in a template is one literal backslash. */
  lemma EscapedBackslash(rest: string)
    ensures ParseTemplate("\\\\" + rest) == ParseAfter([Lit('\\')], rest)
  {
    var u := "\\\\" + rest;
    assert u[0] == '\\' && u[1] == '\\' && u[2..] == rest;
  }

  /** The template built from a doubled backslash and a plain name parses to `DefaultPieces`. */
  lemma DefaultParses(name: string)
    requires forall k :: 0 <= k < |name| ==> name[k] != '\\'
    ensures ParseTemplate("{" + ("\\\\" + name) + " \\1}") == Success(DefaultPieces(name))
  {
    var rest := name + " \\1}";
    var tail := LitsOf(name) + [Lit(' '), Group, Lit('}')];
    TemplateTail("");
    ParsePlain(name, " \\1}");
    assert ParseTemplate(rest) == Success(tail);
    EscapedBackslash(rest);
    assert ParseTemplate("\\\\" + rest) == Success([Lit('\\')] + tail);
    ParseLit('{', "\\\\" + rest);
    assert ParseTemplate(['{'] + ("\\\\" + rest)) == Success(DefaultPieces(name));
    DefaultTemplate(name);
  }

  lemma DefaultTemplate(name: string)
    ensures "{" + ("\\\\" + name) + " \\1}" == ['{'] + ("\\\\" + (name + " \\1}"))
  {
  }

  /** Filling `DefaultPieces` wraps a run in the command with a single backslash. */
  lemma DefaultFills(name: string, run: string)
    ensures Fill(DefaultPieces(name), run) == Wrapped("\\" + name, run)
  {
    var tail := LitsOf(name) + [Lit(' '), Group, Lit('}')];
    TemplateTail(run);
    FillAppend(LitsOf(name), [Lit(' '), Group, Lit('}')], run);
    FillLits(name, run);
    FillAppend([Lit('\\')], tail, run);
    FillAppend([Lit('{')], [Lit('\\')] + tail, run);
    assert Fill([Lit('\\')], run) == "\\" by {
      assert [Lit('\\')][1..] == [];
    }
    assert Fill([Lit('{')], run) == "{" by {
      assert [Lit('{')][1..] == [];
    }
  }

  /** The default command `\\burmesefont` reaches the output as `\burmesefont`: the doubled
      backslash is a template escape. */
  lemma DefaultCommand(content: string, name: string)
    requires forall k :: 0 <= k < |name| ==> name[k] != '\\'
    ensures ProcessMyanmarTextAsWritten(content, "\\\\" + name) == Success(WrapRuns(content, "\\" + name))
  {
    var pieces := DefaultPieces(name);
    DefaultParses(name);
    AsWrittenParsed(content, "\\\\" + name, pieces);
    forall run ensures Fill(pieces, run) == Wrapped("\\" + name, run) {
      DefaultFills(name, run);
    }
    SubRunsExt(content, run => Fill(pieces, run), run => Wrapped("\\" + name, run));
  }

  /** A single backslash before a letter outside `abfnrtv`, as in the help text's example
      `\myfont`, makes the call fail whatever the content. */
  lemma SingleBackslashFails(content: string, c: char, name: string)
    requires IsAsciiLetter(c) && EscapeOf(c).None? && c != 'g'
    ensures ProcessMyanmarTextAsWritten(content, ['\\', c] + name).Failure?
  {
    var u := ['\\', c] + name + " \\1}";
    assert "{" + (['\\', c] + name) + " \\1}" == ['{'] + u;
    assert u[0] == '\\' && u[1] == c && u[..2] == ['\\', c];
    assert ParseTemplate(u) == Failure(BadEscape(['\\', c]));
    ParseLit('{', u);
    assert ParseTemplate(['{'] + u).Failure?;
  }

  lemma WrapNoMyanmarIf(s: string, cmd: string)
    ensures BlockFree(s) ==> WrapRuns(s, cmd) == s
  {
    if BlockFree(s) {
      WrapNoMyanmar(s, cmd);
    }
  }

  lemma UnwrapWrapIf(s: string, cmd: string)
    ensures BlockFree(cmd) ==> Unwrap(WrapRuns(s, cmd), cmd) == s
  {
    if BlockFree(cmd) {
      UnwrapWrap(s, cmd);
    }
  }

  /** The number of maximal runs of U+1000..U+109F characters in `s`: the positions where
      a run ends. */
  function RunCount(s: string): nat
    decreases |s|
  {
    if |s| == 0 then 0
    else (if IsMyanmarBlock(s[0]) && (|s| == 1 || !IsMyanmarBlock(s[1])) then 1 else 0) + RunCount(s[1..])
  }

  /** The number of wrappers `Unwrap` removes from `t`. */
  function WrapperCount(t: string, cmd: string): nat
    decreases |t|
  {
    if |t| == 0 then 0
    else if WrapperAt(t, cmd) then
      var o := |cmd| + 2;
      1 + WrapperCount(t[o + BlockRunLen(t[o..]) + 1..], cmd)
    else WrapperCount(t[1..], cmd)
  }

  /** A run at the start of `s` counts once, up to where it ends. */
  lemma {:induction false} RunCountOfRun(s: string)
    requires |s| > 0 && IsMyanmarBlock(s[0])
    ensures RunCount(s) == 1 + RunCount(s[BlockRunLen(s)..])
    decreases |s|
  {
    if |s| > 1 && IsMyanmarBlock(s[1]) {
      RunCountOfRun(s[1..]);
      assert s[1..][BlockRunLen(s[1..])..] == s[BlockRunLen(s)..];
    }
  }

  /** The wrapper of a run is counted once, and counting resumes behind it. */
  lemma WrapperCounted(cmd: string, run: string, rest: string)
    requires |run| > 0 && forall k :: 0 <= k < |run| ==> IsMyanmarBlock(run[k])
    ensures WrapperCount(Wrapped(cmd, run) + rest, cmd) == 1 + WrapperCount(rest, cmd)
  {
    var t := Wrapped(cmd, run) + rest;
    var o := |cmd| + 2;
    WrapperUnwraps(cmd, run, rest);
    assert t[o..] == run + ("}" + rest);
    BlockRunOf(run, "}" + rest);
    assert t[o + |run| + 1..] == rest;
  }

  /** Wrapping makes one wrapper per maximal run, whenever the font command holds no
      Myanmar character. */
  lemma {:induction false} WrappersPerRun(s: string, cmd: string)
    requires BlockFree(cmd)
    ensures WrapperCount(WrapRuns(s, cmd), cmd) == RunCount(s)
    decreases |s|
  {
    if |s| > 0 {
      if IsMyanmarBlock(s[0]) {
        var n := BlockRunLen(s);
        WrappersPerRun(s[n..], cmd);
        WrapperCounted(cmd, s[..n], WrapRuns(s[n..], cmd));
        RunCountOfRun(s);
      } else {
        var t := WrapRuns(s, cmd);
        var rest := WrapRuns(s[1..], cmd);
        assert t == [s[0]] + rest;
        WrappersPerRun(s[1..], cmd);
        WrapStartsPlain(s[1..], cmd);
        var o := |cmd| + 2;
        assert |t| > o ==> t[o..][0] == rest[o - 1] && !IsMyanmarBlock(rest[o - 1]);
        assert !WrapperAt(t, cmd);
        assert t[1..] == rest;
      }
    }
  }

  lemma WrappersPerRunIf(s: string, cmd: string)
    ensures BlockFree(cmd) ==> WrapperCount(WrapRuns(s, cmd), cmd) == RunCount(s)
  {
    if BlockFree(cmd) {
      WrappersPerRun(s, cmd);
    }
  }

  /** `process_myanmar_text` with the font command used as written, the behaviour its help
      text describes. This also changes the default: the script's `\\burmesefont`, taken
      literally, gives `{\\burmesefont run}` where the script gives `{\burmesefont run}`. */
  function ProcessMyanmarText(content: string, fontCommand: string): (r: string)
    ensures BlockFree(content) ==> r == content
    ensures BlockFree(fontCommand) ==> Unwrap(r, fontCommand) == content
    ensures BlockFree(fontCommand) ==> WrapperCount(r, fontCommand) == RunCount(content)
  {
    WrapNoMyanmarIf(content, fontCommand);
    UnwrapWrapIf(content, fontCommand);
    WrappersPerRunIf(content, fontCommand);
    WrapRuns(content, fontCommand)
  }
}
