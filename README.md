# oppaWord in Dafny

A model of the core of oppaWord, a Myanmar word segmenter, with proofs about it.
The segmenter (`HybridDAGSegmenter`) works in these steps:

1. It optionally removes spaces.
2. It breaks the text into syllables with a fixed boundary rule.
3. It builds a lattice (DAG) over syllable positions. Each position gets one edge per dictionary word starting there, plus the single-syllable edge.
4. Optionally, it adds the edges of a bidirectional maximum-matching (Bi-MM) segmentation.
5. It decodes the best path with a single Viterbi pass. Each edge scores a dictionary term, a syllable-frequency term, a back-off n-gram term and a Bi-MM boost.
6. It joins the words of the path, normalises the spacing and applies post-editing rules.

The model also covers how the tools work:

- **Evaluation tool:** word boundaries, precision, recall and F1 at the word, boundary and vocabulary levels, and the error analysis with its top-k report.
- **Smart space remover:** delete all spaces; remove the spaces between Myanmar letters up to a fixpoint; protect digit spacing with a ☃ sentinel.
- **Punctuation corrector:** puts a space before ၊ and ။.
- **TeX helper:** wraps every Myanmar run in a font command.

Each `re.sub` over a fixed character class is written as a left-to-right scan over `seq<char>`. The scan follows Python's leftmost, non-overlapping matching. Whitespace (`\s`, `str.split()`, `str.strip()`) is Python's Unicode whitespace set. Strings are `seq<char>`. Ratios are exact `real`s.

These parameters stand for code outside the model:

- the per-edge score that the decoder receives;
- the mean log frequency used by the syllable term;
- the KenLM scorer;
- `re.compile` and regular-expression substitution for regex post-edit rules.

Modules, one per file:

- `Wrappers`: Option and Result.
- `Chars`: character classes.
- `Strings`: the Python string operations.
- `Syllables`: `syllable_break`.
- `Lattice`: the DAG builder.
- `MaxMatch`: forward, backward and Bi-MM matching, and Bi-MM edge injection.
- `Scoring`: the clamp and the per-edge terms.
- `Viterbi`: the decoder and the backtrace.
- `PostEdit`: rule loading and `_post_edit`.
- `SpaceRemover`: the space remover and the segmenter's copy of it.
- `Segmenter`: the constructor and `segment`.
- `Evaluation`: boundaries and `calculate_metrics`.
- `ErrorAnalysis`: `analyze_errors`.
- `Punctuation`: the punctuation corrector.
- `TexWrap`: the TeX helper.

Two edge cases of the code, which the model follows as written:

- `syllable_break` of a blank text returns `[""]`, so `segment` works on one empty syllable, not on zero syllables.
- `_preprocess_text` returns the text unchanged for an unknown mode. `process_lines` raises `ValueError` for one.

## Model

| member | source | states |
|---|---|---|
| Scoring.ClampWordLen | oppa_word.py:66 | the maximum word length lies in [3, 12], equals x when x is already in range, is 3 below the range and 12 above it |
| Scoring.ClampMonotone | oppa_word.py:66 | the clamp is monotone and idempotent |
| Segmenter.NewSegmenter | oppa_word.py:57-76 | a constructed segmenter has its word length in [3, 12] (equal to the argument when in range) and keeps the dictionary, rules, Bi-MM flag and space mode it was given |
| Syllables.SyllableBreak | oppa_word.py:166-171 | splitting on the bar character never returns an empty list, so there is always at least one syllable |
| Syllables.Boundaries | oppa_word.py:159-164 | the positions found are exactly in range, satisfy the boundary rule (consonant or ၊/။, not after ္, not before ် or ္) and strictly increase |
| Syllables.BoundariesComplete | oppa_word.py:159-164 | every position satisfying the boundary rule is found |
| Syllables.SyllablesConcat | oppa_word.py:166-171 | for any text, the syllables concatenate to the whitespace-normalised text less its bar characters |
| Syllables.SyllablesAtBoundaries | oppa_word.py:166-171 | for text without the bar character: blank text gives `[""]`; otherwise the syllables are the pieces of the normalised text cut at exactly the boundary positions after 0 (no leading empty syllable) |
| Syllables.BreakAtBoundaries | oppa_word.py:168-171 | on normalised text without the bar character, the split pieces are the text cut at index 0, at every boundary after it and at the end |
| Syllables.SyllablesRoundTrip | oppa_word.py:166-171 | for text without the bar character the syllables concatenate to the normalised text, and are all non-empty unless the text is blank |
| Syllables.NormalizeKeepsBar | oppa_word.py:167 | normalising whitespace does not introduce the bar character |
| Lattice.BuildRow | oppa_word.py:291-294 | `dag[i]` holds exactly the edges to j in (i, min(i+maxLen, n)] whose word is the syllables i..j joined and is in the dictionary or one syllable long, in increasing j, none flagged Bi-MM |
| Lattice.BuildLattice | oppa_word.py:290-294 | every row of the lattice is the row the builder promises |
| Lattice.LatticeRowFirst | oppa_word.py:290-294 | with maxLen >= 1 the first entry of `dag[i]` is `(i+1, syllables[i], False)` |
| Lattice.LatticeIsForwardDag | oppa_word.py:290-294 | the lattice is a forward DAG over 0..n, each edge spells its syllables and qualifies, and every position has its single-syllable edge |
| Lattice.WordSingle | oppa_word.py:292 | the word of one syllable is that syllable |
| MaxMatch.LongestFrom | oppa_word.py:210-215 | the length found is a dictionary word starting at i, and no longer one within reach is in the dictionary |
| MaxMatch.LongestTo | oppa_word.py:225-230 | the length found is a dictionary word ending at i, and no longer one within reach is in the dictionary |
| MaxMatch.LongestMatchFrom | oppa_word.py:210-215 | the `for j` loop with `break` stops at the longest dictionary word starting at i within the bound, or at 0 |
| MaxMatch.LongestMatchTo | oppa_word.py:225-230 | the backward `for j` loop stops at the longest dictionary word ending at i within the bound, or at 0 |
| MaxMatch.ForwardSegment | oppa_word.py:210-219 | one iteration of the forward loop takes the longest dictionary word from i, or the single syllable |
| MaxMatch.BackwardSegment | oppa_word.py:225-234 | one iteration of the backward loop takes the longest dictionary word ending at i, or the single syllable before i |
| MaxMatch.ForwardMM | oppa_word.py:206-219 | the `while` loop returns the forward maximum-matching segmentation |
| MaxMatch.BackwardMM | oppa_word.py:221-234 | the loop with `insert(0, ...)` returns the backward maximum-matching segmentation |
| MaxMatch.BackwardStep | oppa_word.py:224-233 | one step of the backward loop prepends the longest dictionary word ending at i, or the single syllable before i |
| MaxMatch.ForwardSound | oppa_word.py:206-219 | the forward spans tile [i, n] contiguously, and each is a valid span that is the longest dictionary match at its start |
| MaxMatch.BackwardSound | oppa_word.py:221-234 | the backward spans tile [0, i] contiguously, and each is a valid span that is the longest dictionary match at its end |
| MaxMatch.ForwardUnique | oppa_word.py:206-219 | any tiling made only of longest-match-at-start spans is the forward result |
| MaxMatch.FirstForwardSpan | oppa_word.py:209-218 | the forward pass from a span's start takes that span, then continues from its end |
| MaxMatch.ForwardHeadUnique | oppa_word.py:209-218 | a valid span that is the longest match at its start is the very span the forward pass takes there |
| MaxMatch.BiMMSegmentation | oppa_word.py:236-239 | the selection returns the Bi-MM segmentation |
| MaxMatch.BiMMSound | oppa_word.py:236-239 | the chosen spans tile [0, n] with valid spans and have no more segments than either pass; forward is chosen iff len(fmm) <= len(bmm) |
| MaxMatch.EdgesAt | oppa_word.py:298-300 | the injected edges at i are flagged Bi-MM and come from spans starting at i |
| MaxMatch.InjectBiMM | oppa_word.py:297-300 | each Bi-MM span is appended to `dag[start]` after the existing edges, flagged True |
| MaxMatch.InjectedDag | oppa_word.py:297-300 | injecting valid spans keeps the lattice a forward DAG spelling the syllables, with all step edges |
| Scoring.DictScore | oppa_word.py:195-196 | the dictionary term is the weight for a dictionary word and 0 otherwise |
| Scoring.NGramUnigram | oppa_word.py:178 | context length 0 is the word alone; length 1 is the last history word, a space and the word |
| Scoring.ArpaLookup | oppa_word.py:177-181 | the back-off loop from context length n down to 0: the first n-gram present gives its value, none gives -20.0 |
| Scoring.ArpaScore | oppa_word.py:173-181 | the table branch starts the back-off at min(len(history), max_order - 1) |
| Scoring.ArpaHit | oppa_word.py:173-181 | back-off returns the value of the longest n-gram present in the table, trying lengths from the longest down |
| Scoring.ArpaMiss | oppa_word.py:181 | when no n-gram is present the result is -20.0 |
| Scoring.ArpaValueOrigin | oppa_word.py:173-181 | the result is -20.0 or the table value of some n-gram of the tried lengths |
| Scoring.ArpaNoOrder | oppa_word.py:177 | with max_order <= 0 no context is tried and the result is -20.0 |
| Scoring.SliceFrom | oppa_word.py:184 | Python's `s[-k:]` is a suffix of s, with or without k's sign |
| Scoring.BinaryContextAsWritten | oppa_word.py:183-185 | the binary-model context is `history[-max_order+1:]` and the word, space-joined |
| Scoring.BinaryContextOrderOne | oppa_word.py:184 | at max_order = 1, `history[0:]` puts the whole history into the context |
| Scoring.BinaryContext | oppa_word.py:183-185 | the corrected binary-model context is the n-gram of the table branch (used only to state the finding) |
| Scoring.BinaryContextAgrees | oppa_word.py:184 | for max_order >= 2 the corrected context equals the source's |
| Scoring.LmTerm | oppa_word.py:173-185 | the LM term is 0 with an empty table, the back-off score with a non-empty one, and the binary scorer of the context as the code builds it otherwise, which is the table branch's longest n-gram once max_order >= 2 |
| Scoring.SylScore | oppa_word.py:187-193 | the syllable term fails exactly when a frequency table is loaded and the word is empty (division by `len(word)`); it is 0 without a table |
| Scoring.EdgeScore | oppa_word.py:310-315 | an edge's total fails exactly when its syllable term does; otherwise it is the dictionary, syllable and LM terms plus the boost on Bi-MM edges |
| Scoring.EdgeScoreHistoryFree | oppa_word.py:312 | without a language model the total does not depend on the history |
| Scoring.BimmBoostOnly | oppa_word.py:310-315 | a Bi-MM edge fails exactly when the same edge unflagged fails, and otherwise scores exactly the boost above it |
| Viterbi.Decode | oppa_word.py:302-319 | the loop ends in the Decoded state: `scores[0] = 0`; each position is justified by an edge and its history; every edge was relaxed; and strict `<` kept the earliest best edge |
| Viterbi.StepKeep | oppa_word.py:316 | an edge that does not improve its end keeps the state's invariant |
| Viterbi.StepUpdate | oppa_word.py:316-319 | an improving edge updates score, path and history and keeps the invariant |
| Viterbi.NextRow | oppa_word.py:308-319 | finishing the edges of one position keeps the loop invariant for the next position |
| Viterbi.AllReached | oppa_word.py:308-319 | with step edges, every position j in 1..n is reached and `paths[j] = (i, w)` with i < j |
| Viterbi.HistoryIsTrace | oppa_word.py:332-337 | `histories[j]` is the list of words on the back pointers from j |
| Viterbi.TraceIsPath | oppa_word.py:308-319 | the back pointers from j form a lattice path whose words are `histories[j]` and whose edge scores sum to `scores[j]` |
| Viterbi.PathBounded | oppa_word.py:308-319 | when scores do not depend on the history, no path to j scores more than `scores[j]` |
| Viterbi.PathSpells | oppa_word.py:290-294 | the words along any path to j concatenate to the syllables 0..j |
| Viterbi.Reverse | oppa_word.py:339 | `reversed` maps index i to index len-1-i |
| Viterbi.Backtrace | oppa_word.py:332-337 | the `while idx > 0` loop terminates and returns the words on the back pointers from n, in text order |
| PostEdit.ParseRuleLine | oppa_word.py:137-156 | a blank line, a `#` line and a line without the triple-bar separator give no rule; a rule has stripped source and target, is regex exactly when the source has one of the regex metacharacters (and then compiles) |
| PostEdit.ParseFormatRule | oppa_word.py:137-156 | a rule written as source, separator, target is read back as the same rule |
| PostEdit.FindSeparator | oppa_word.py:142 | splitting once on the separator splits at the first separator |
| PostEdit.LoadRules | oppa_word.py:134-157 | the loading loop keeps the parsed rules of the non-blank, non-comment lines, in file order |
| PostEdit.LoadedRulesWellFormed | oppa_word.py:134-157 | every loaded rule is stripped, correctly classified, and compiles if it is a regex |
| PostEdit.ParseRules | oppa_word.py:134-157 | the rules of a file are those `ParseRuleLine` returns, in line order |
| PostEdit.ApplyRule | oppa_word.py:199-203 | a literal rule is `str.replace` of its source by its target; a regex rule is the substitution parameter |
| PostEdit.ApplyAll | oppa_word.py:198-204 | the rules are applied in order, each to the previous output |
| PostEdit.PostEditLine | oppa_word.py:198-204 | `_post_edit` applies the rules in order, each to the previous rule's output |
| PostEdit.ApplyAllAppend | oppa_word.py:199-203 | applying a rule file split in two is applying the second part to the first part's output |
| PostEdit.ApplyAllAbsent | oppa_word.py:203 | literal rules whose non-empty sources do not occur leave the line unchanged |
| SpaceRemover.RemoveAllSpaces | tools/smart_space_remover.py:45-46 | the result is the text with every U+0020 removed |
| SpaceRemover.RemoveAllSpacesProps | tools/smart_space_remover.py:45-46 | no U+0020 is left, all other characters are kept, the result is no longer, and removal is idempotent |
| SpaceRemover.SubGap | tools/smart_space_remover.py:27-58 | one `re.sub` of a `(P1)\s+(P2)` pattern: a leftmost non-overlapping scan that replaces each match by its end characters around the replacement text |
| SpaceRemover.LetterFixpoint | tools/smart_space_remover.py:55-58 | the letter pass repeated until it changes nothing |
| SpaceRemover.Protect | tools/smart_space_remover.py:39-52 | the three protect passes in list order, each writing ☃ into the gaps it matches |
| SpaceRemover.SubGapDeletes | tools/smart_space_remover.py:58 | one letter-gap pass only deletes whitespace, and changes nothing when it does not shorten the text |
| SpaceRemover.SubGapNoMatch | tools/smart_space_remover.py:52 | a pass over text with no match returns it unchanged |
| SpaceRemover.LetterFixpointProps | tools/smart_space_remover.py:55-58 | the fixpoint loop ends with no letter/whitespace/letter gap left, only whitespace deleted, and one more pass changing nothing |
| SpaceRemover.RemoveMyanmarSpaces | tools/smart_space_remover.py:48-64 | the protect passes, the fixpoint loop and the ☃ restore compute the specified result |
| SpaceRemover.MyModeRemovesOnlyWs | tools/smart_space_remover.py:55-58 | `my` mode deletes only whitespace, keeps every other character in order, and leaves no letter gap |
| SpaceRemover.ProtectedGapsSurvive | tools/smart_space_remover.py:55-62 | the letter loop keeps every non-whitespace character, ☃ included, so the protected spaces reach the restore step |
| SpaceRemover.DropsWsMarks | tools/smart_space_remover.py:55-58 | deleting whitespace is a gap marking that marks nothing |
| SpaceRemover.MarksGapsKeepsNonWs | tools/smart_space_remover.py:49-62 | a gap marking with a whitespace mark keeps every non-whitespace character in order and never lengthens |
| SpaceRemover.RunAlign | tools/smart_space_remover.py:49-58 | under a gap marking, a leading whitespace run comes from a whitespace run at least as long, followed by the same character |
| SpaceRemover.MarksGapsTrans | tools/smart_space_remover.py:49-58 | two gap markings (non-whitespace mark) in a row are one gap marking of the original text |
| SpaceRemover.SubGapMarks | tools/smart_space_remover.py:51-52 | a protect pass replaces each whitespace run it matches by one ☃, between a digit and a letter or digit, and copies the rest |
| SpaceRemover.ProtectMarks | tools/smart_space_remover.py:39-52 | the three protect passes together are a gap marking with ☃ |
| SpaceRemover.ProtectedGapsMarked | tools/smart_space_remover.py:49-58 | protecting and then running the letter loop marks gaps with ☃ and otherwise only deletes whitespace |
| SpaceRemover.MarksRestore | tools/smart_space_remover.py:60-62 | on a text without ☃, turning the marks into spaces gives a gap marking with a space |
| SpaceRemover.NotNumSpaces | tools/smart_space_remover.py:48-74 | `my_not_num` on a text without ☃ deletes whitespace, except that some whitespace runs between a Myanmar digit and a Myanmar letter or digit become one space; every non-whitespace character is kept in order and the line never grows |
| SpaceRemover.RestoreSnowman | tools/smart_space_remover.py:62 | the restore turns every ☃ (protected or from the input) into one space and changes nothing else |
| Chars.DigitIsLetter | tools/smart_space_remover.py:23-24 | every Myanmar digit lies in the letter class and in the Myanmar block |
| SpaceRemover.DigitGapJoined | tools/smart_space_remover.py:55-58 | digits are letters, so `my` mode also joins digits across a whitespace run |
| SpaceRemover.LetterGapJoined | tools/smart_space_remover.py:58 | one letter pass turns letter, whitespace run, letter into the two letters |
| SpaceRemover.LetterPairFixed | tools/smart_space_remover.py:55-58 | two adjacent letters are a fixpoint of the letter loop |
| SpaceRemover.DigitGapKept | tools/smart_space_remover.py:49-62 | `my_not_num` reduces a whitespace run between digits to exactly one space |
| SpaceRemover.ProtectDigitGap | tools/smart_space_remover.py:49-52 | the protect passes replace a digit-digit whitespace run by one ☃ |
| SpaceRemover.ProcessLines | tools/smart_space_remover.py:66-76 | each line is stripped of trailing newlines and processed by the mode; an unknown mode raises as soon as there is a line |
| SpaceRemover.ProcessKnown | tools/smart_space_remover.py:69-74 | each known mode dispatches to its removal function |
| SpaceRemover.StripNewlines | tools/smart_space_remover.py:68 | `rstrip('\n')` removes exactly the trailing newlines |
| SpaceRemover.ProcessLine | tools/smart_space_remover.py:69-74 | the result of each known mode on one line |
| SpaceRemover.PreprocessText | oppa_word.py:273-282 | no mode or an empty mode leaves the text unchanged; a known mode is the tool's processing; an unknown mode leaves the text unchanged |
| Segmenter.EmptyWordIffBlank | oppa_word.py:187-193 | for text without the bar character, some lattice edge carries the empty word exactly when the text normalises to nothing |
| Segmenter.EdgeValueHistoryFree | oppa_word.py:310-315 | the edge total handed to the decoder is history-free without an LM |
| Segmenter.EdgeValue | oppa_word.py:310-315 | the value handed to the decoder is the edge total of the scoring terms |
| Segmenter.BuildDag | oppa_word.py:288-300 | the lattice is the builder's rows followed by the Bi-MM edges when enabled, and is a forward DAG spelling the syllables with all step edges |
| Segmenter.BestPath | oppa_word.py:302-337 | the words are those of the path the Viterbi pass keeps (the back-pointer trace of the final decoder state, so with any language model); that path runs through the whole lattice and concatenates to the syllables; without an LM no path scores more |
| Segmenter.SegmentDagOfRows | oppa_word.py:290-300 | a row followed by its injected edges has the segmenter's row shape |
| Segmenter.FinishKeepsText | oppa_word.py:339-340 | joining with spaces and normalising keeps exactly the non-whitespace characters of the syllables |
| Segmenter.Finish | oppa_word.py:339-341 | the words are space-joined, whitespace-normalised and post-edited when there are rules |
| Segmenter.FinishLine | oppa_word.py:339-341 | the words are joined with spaces, whitespace-normalised and post-edited when there are rules |
| Segmenter.Segment | oppa_word.py:284-341 | `segment` fails with ZeroDivisionError exactly when a frequency table is loaded and an edge carries the empty word (for text without the bar character: exactly when the preprocessed text is blank); otherwise it returns the normalised, post-edited join of the path the Viterbi pass keeps, which spells the syllables and is best without an LM; without rules it keeps exactly the non-whitespace characters of the preprocessed text less the bar character |
| Segmenter.SegmentSyllables | oppa_word.py:288-341 | from the syllables on, the lattice has the segmenter's rows, the call fails exactly when a frequency table is loaded and an edge carries the empty word, and otherwise returns the finished line of the path the Viterbi pass keeps |
| Punctuation.CorrectSegmentation | tools/correct_my_punc.py:8-10 | the output is never shorter and starts with the input's first character |
| Punctuation.OnlySpacesInserted | tools/correct_my_punc.py:10 | the output is the input with spaces inserted (an interleaving that adds only U+0020), so deleting spaces from both gives the same string |
| Punctuation.LastKept | tools/correct_my_punc.py:10 | the correction of a non-empty text ends with the text's last character |
| Punctuation.MarkAfterWsUnspaced | tools/correct_my_punc.py:10 | a ၊ or ။ at the start of the text or after whitespace gets no space: the correction splits before it, the mark starts its part, and the character before it in the output is the input's whitespace |
| Punctuation.UnchangedWithoutGlue | tools/correct_my_punc.py:10 | text with no ၊/။ right after a non-whitespace character is returned unchanged |
| Punctuation.GlueLengthens | tools/correct_my_punc.py:10 | a mark glued to a non-whitespace character makes the output longer |
| Punctuation.ChangedIffGlued | tools/correct_my_punc.py:10 | the text changes exactly when some mark is glued to its predecessor |
| Punctuation.SpacedWithoutDoubleMarks | tools/correct_my_punc.py:10 | without two adjacent marks, no mark of the output is glued |
| Punctuation.IdempotentWithoutDoubleMarks | tools/correct_my_punc.py:10 | without two adjacent marks, correcting twice is correcting once |
| Punctuation.DoubleMarkOnePass | tools/correct_my_punc.py:10 | `x။။` becomes `x ။။`, and a second pass changes it again: not idempotent |
| Punctuation.LengthCountsMatches | tools/correct_my_punc.py:10 | the output length is the input length plus the number of matches |
| Punctuation.CorrectAppend | tools/correct_my_punc.py:10 | the scan restarts after whitespace, so text split after whitespace is corrected piecewise |
| Punctuation.CorrectEachWhole | tools/correct_my_punc.py:12-16 | correcting newline-terminated lines one by one is correcting their concatenation |
| Punctuation.ProcessStream | tools/correct_my_punc.py:12-16 | the loop over the input lines writes each corrected line, which equals correcting the whole input |
| TexWrap.BlockRunLen | tools/modify_tex.py:8 | the run at the start is exactly the maximal prefix of U+1000..U+109F characters |
| TexWrap.SubRuns | tools/modify_tex.py:8 | `re.sub` of the Myanmar-run pattern: each maximal U+1000..U+109F run is replaced by the function of it, the rest is copied |
| TexWrap.WrapRuns | tools/modify_tex.py:8 | every run is wrapped as `{cmd run}` with the command taken literally |
| TexWrap.WrapNoMyanmar | tools/modify_tex.py:8 | text with no U+1000..U+109F character is returned unchanged |
| TexWrap.WrapStartsPlain | tools/modify_tex.py:8 | a wrapped text does not start with a Myanmar character within the command's width |
| TexWrap.BlockRunOf | tools/modify_tex.py:8 | a run followed by another character is found whole |
| TexWrap.WrapperUnwraps | tools/modify_tex.py:8 | each wrapper `{cmd run}` is recognised and unwraps to its run |
| TexWrap.UnwrapWrap | tools/modify_tex.py:8 | stripping the wrappers recovers the input when the command has no Myanmar character |
| TexWrap.RunCountOfRun | tools/modify_tex.py:8 | a maximal run counts once |
| TexWrap.WrapperCounted | tools/modify_tex.py:8 | a wrapped run is counted as one wrapper |
| TexWrap.WrappersPerRun | tools/modify_tex.py:8 | the number of wrappers equals the number of maximal runs |
| TexWrap.ExtendedANotWrapped | tools/modify_tex.py:8 | U+AA60..U+AA7F counts as a letter for the space remover but is not wrapped |
| TexWrap.ParsePlain | tools/modify_tex.py:8 | template text without backslashes is parsed as literal characters |
| TexWrap.LitsOf | tools/modify_tex.py:8 | literal pieces of a plain string, one per character |
| TexWrap.FillLits | tools/modify_tex.py:8 | filling literal pieces gives the plain string back |
| TexWrap.TemplateTail | tools/modify_tex.py:8 | ` \1}` is read as a space, the run and `}` |
| TexWrap.ParseTemplate | tools/modify_tex.py:8 | Python's reading of a replacement template: literals, `\1`, the one-letter escapes, and a bad escape for other ASCII letters |
| TexWrap.ProcessMyanmarTextAsWritten | tools/modify_tex.py:6-8 | the template is parsed once, so a bad font command fails even without Myanmar text; otherwise each run is filled into it |
| TexWrap.AsWrittenParsed | tools/modify_tex.py:8 | with a template that parses, `re.sub` fills it with each run |
| TexWrap.PlainCommandWraps | tools/modify_tex.py:8 | a command without backslashes wraps each run as `{cmd run}` |
| TexWrap.DefaultCommand | tools/modify_tex.py:27-31 | the default `\\burmesefont` is read as `\burmesefont` |
| TexWrap.DefaultParses | tools/modify_tex.py:8 | the template of a doubled backslash and a plain name reads as `{`, one backslash, the name, a space, the group and `}` |
| TexWrap.DefaultFills | tools/modify_tex.py:8 | filling those pieces with a run gives `{\name run}` |
| TexWrap.SingleBackslashFails | tools/modify_tex.py:8 | a command like the help's `\myfont` makes the template parse fail (bad escape) |
| TexWrap.ProcessMyanmarText | tools/modify_tex.py:6-8 | with the command taken literally: no Myanmar text is unchanged; unwrapping restores the input; one wrapper per run |
| Evaluation.OffsetAppend | tools/eval_segmentation.py:38-43 | the running position grows by the word length plus the gap |
| Evaluation.OffsetUnspaced | tools/eval_segmentation.py:38-43 | with no gap, the position is the length of the joined words |
| Evaluation.Spans | tools/eval_segmentation.py:38-43 | the (start, end) pair of each word, from a start position, with `gap` positions counted after each word |
| Evaluation.SpanAt | tools/eval_segmentation.py:38-43 | the k-th pair starts at the offset of the words before it and ends a word length later |
| Evaluation.SpansShape | tools/eval_segmentation.py:38-43 | the first start is the origin, each end is start + len(word), and each next start is the previous end plus the gap |
| Evaluation.SpansDistinct | tools/eval_segmentation.py:38-43 | the starts strictly increase, so the pairs are distinct |
| Evaluation.GetWordBoundaries | tools/eval_segmentation.py:31-44 | the loop returns `text.split()` and its (start, end) pairs with one position per space |
| Evaluation.WordBoundariesProps | tools/eval_segmentation.py:31-44 | as many pairs as words, the first at 0, end - start = len(word), next start = end + 1, all distinct |
| Evaluation.UnspacedBoundaries | tools/eval_segmentation.py:38-43 | the corrected boundary pairs, one per word |
| Evaluation.UnspacedBoundaryAt | tools/eval_segmentation.py:38-43 | a corrected pair is the word's offsets in the joined text |
| Evaluation.SpacedOffsetsDrift | tools/eval_segmentation.py:38-43 | "ab c" against "a b c" shares no pair although `c` sits at the same place in the text; the corrected offsets share it |
| Evaluation.ElemsDistinct | tools/eval_segmentation.py:171-172 | a list of distinct pairs has a set of the same size |
| Evaluation.BoundaryCounts | tools/eval_segmentation.py:171-177 | the boundary counters of one line: the size of the intersection of the two pair sets and the size of each set, with the offsets of the variant |
| Evaluation.BoundaryCountsBounded | tools/eval_segmentation.py:171-177 | for either variant, per line the common pairs are at most the reference pairs and the hypothesis pairs, and each side of non-empty words has one pair per word |
| Evaluation.DistinctPairs | tools/eval_segmentation.py:171 | the set of a line's corrected pairs has one element per word |
| Evaluation.SplitWsNonEmpty | tools/eval_segmentation.py:33 | the words of `str.split()` are never empty |
| Evaluation.Aligned | tools/eval_segmentation.py:185-201 | the words of the two-pointer loop as written: equal words count, otherwise the side behind in spaced position moves on, the hypothesis on a tie |
| Evaluation.AlignWords | tools/eval_segmentation.py:180-201 | the two-pointer loop, with its positions, returns the words the source counts as correct |
| Evaluation.AlignedBounded | tools/eval_segmentation.py:185-201 | the words counted are a sub-multiset of each side's words, and there are at most min(len) of them |
| Evaluation.AlignedSelf | tools/eval_segmentation.py:185-201 | a line aligned with itself counts every word |
| Evaluation.AlignedUnspaced | tools/eval_segmentation.py:185-201 | the corrected loop: a word counts when both sides have it at the same offset of the unspaced text |
| Evaluation.SpacedPositionsMissWord | tools/eval_segmentation.py:192-201 | the source misses `de` in "a b c de f" against "abc de f" |
| Evaluation.EqualWordsElsewhereCounted | tools/eval_segmentation.py:189-191 | the source counts `a` in "a aa" against "aa a", where no word is at the same place |
| Evaluation.AlignWordsUnspaced | tools/eval_segmentation.py:180-201 | the corrected loop returns the corrected alignment |
| Evaluation.AlignedUnspacedCountsShared | tools/eval_segmentation.py:185-201 | the corrected count is the number of (offset, word) pairs the two lines share |
| Evaluation.UnspacedAlignmentExamples | tools/eval_segmentation.py:185-201 | the corrected count finds `de` and `f` in the first example and nothing in the second |
| Evaluation.AlignedUnspacedBounded | tools/eval_segmentation.py:185-201 | the corrected count is a sub-multiset of each side and at most min(len) |
| Evaluation.Lines | tools/eval_segmentation.py:159 | only the first min(len(ref), len(hyp)) line pairs are compared, each on its own |
| Evaluation.Alignment | tools/eval_segmentation.py:180-201 | the words the variant's word loop counts as correct |
| Evaluation.WordStats | tools/eval_segmentation.py:161-204 | the counters of a line pair from its words: word totals, the words counted correct, and the boundary counts |
| Evaluation.LineStatsOf | tools/eval_segmentation.py:161-204 | the counters of a line pair come from `text.split()` of both sides |
| Evaluation.LineStatsExample | tools/eval_segmentation.py:161-204 | "a b c de f" against "abc de f": as written 1 word and 0 boundaries shared, corrected 2 words and 2 boundaries |
| Evaluation.AlignmentBounded | tools/eval_segmentation.py:185-201 | for either variant the words counted are a sub-multiset of each side's words and at most min(len) of them |
| Evaluation.LineConsistent | tools/eval_segmentation.py:161-204 | for either variant one line's counters are consistent: correct <= each side's words, the correct words come from both sides, common boundaries <= each side's boundaries, one boundary per word |
| Evaluation.SumConsistent | tools/eval_segmentation.py:159-204 | the bounds and the vocabulary containment survive summing over lines |
| Evaluation.LinesConsistent | tools/eval_segmentation.py:159-204 | for either variant all counters of `calculate_metrics` are consistent |
| Evaluation.Ratio | tools/eval_segmentation.py:207-217 | a guarded ratio is 0 with a zero denominator, is x/y otherwise, and lies in [0, 1] when x <= y |
| Evaluation.F1 | tools/eval_segmentation.py:209-218 | F1 is 0 when p + r = 0, satisfies f(p + r) = 2pr otherwise, and lies between p and r |
| Evaluation.HarmonicBetween | tools/eval_segmentation.py:209 | the harmonic mean of two non-negative numbers lies between them |
| Evaluation.MetricsBounded | tools/eval_segmentation.py:207-235 | with consistent counters every ratio and F-score is in [0, 1] and vocab_common <= min of the vocabulary sizes |
| Evaluation.CountLines | tools/eval_segmentation.py:159-204 | the counting loop returns the sums over the compared line pairs of the variant's counters, correct words and vocabularies |
| Evaluation.CountLine | tools/eval_segmentation.py:161-204 | the loop body computes the line pair's counters with `get_word_boundaries` and the word loop (as written, or the corrected offsets and alignment) |
| Evaluation.CalculateMetrics | tools/eval_segmentation.py:139-236 | as written: the metrics are those of the summed counters and vocabularies of the spaced offsets and the position-blind word loop; all ratios are in [0, 1]; correct <= min of the totals; vocab_common <= min of the sizes |
| Evaluation.CalculateMetricsCorrected | tools/eval_segmentation.py:139-236 | the same promises with the corrected offsets and word alignment |
| Evaluation.AlignedUnspacedSelf | tools/eval_segmentation.py:185-201 | the corrected alignment of a line with itself counts every word |
| Evaluation.LinePerfect | tools/eval_segmentation.py:161-204 | for either variant a line scored against itself has every word and boundary correct |
| Evaluation.SumPerfect | tools/eval_segmentation.py:159-204 | perfect lines sum to correct = totals |
| Evaluation.SelfScoresOne | tools/eval_segmentation.py:207-213 | for either variant a segmentation scored against itself, with at least one word, has word and boundary precision, recall and F1 of 1 |
| ErrorAnalysis.ParticlesSuffixFree | tools/eval_segmentation.py:58 | no particle ends with another |
| ErrorAnalysis.SuffixesNested | tools/eval_segmentation.py:81 | two suffixes of one word are suffixes of each other, the shorter of the longer |
| ErrorAnalysis.AtMostOneParticle | tools/eval_segmentation.py:80-81 | a word ends with at most one particle, so the set's iteration order does not matter |
| ErrorAnalysis.HitCount | tools/eval_segmentation.py:80-87 | the number of particle hits is at most the number of particles |
| ErrorAnalysis.HitCountAtMostOne | tools/eval_segmentation.py:80-87 | at most one particle hits, and one does exactly when some particle ends the word with a stem inside the reference word |
| ErrorAnalysis.HitCountSuffixFree | tools/eval_segmentation.py:80-87 | for any list in which no string ends with another, at most one string hits, and one does exactly when some string passes the test |
| ErrorAnalysis.HitCountNone | tools/eval_segmentation.py:80-83 | when no particle passes the test the hit count is 0 |
| ErrorAnalysis.ExtendFrom | tools/eval_segmentation.py:90-98 | the combining loop stops in range and its combined word is the start word plus the words it took |
| ErrorAnalysis.ExtendStep | tools/eval_segmentation.py:93 | adding the next word extends the concatenation |
| ErrorAnalysis.Slice | tools/eval_segmentation.py:101 | Python's clamped slice is the plain slice when in range and never longer than the list |
| ErrorAnalysis.Classify | tools/eval_segmentation.py:89-129 | cases 3 to 5 advance both pointers (within the lists) and add exactly one key to one category |
| ErrorAnalysis.Copies | tools/eval_segmentation.py:84 | a key added n times occurs n times |
| ErrorAnalysis.Step | tools/eval_segmentation.py:67-129 | an iteration as written advances both pointers; equal words advance by one without counting; otherwise one error is counted and one key plus one per particle hit is filed |
| ErrorAnalysis.StepPointers | tools/eval_segmentation.py:67-129 | the pointers an iteration moves to do not depend on the counters |
| ErrorAnalysis.Walk | tools/eval_segmentation.py:67-129 | the `while` loop of one line pair as written |
| ErrorAnalysis.Hits | tools/eval_segmentation.py:80-87 | the particle hits the walk meets |
| ErrorAnalysis.WalkCounts | tools/eval_segmentation.py:67-129 | over a line pair as written, the keys filed are the errors counted plus the particle hits; every hit is on a counted error; at most one error per word of each side |
| ErrorAnalysis.WalkIdentical | tools/eval_segmentation.py:71-75 | identical lines add no error and meet no particle hit |
| ErrorAnalysis.StepCorrected | tools/eval_segmentation.py:67-129 | the corrected iteration stays in range, advances on equal words without counting, and otherwise adds one error and exactly one key |
| ErrorAnalysis.WalkCorrected | tools/eval_segmentation.py:67-129 | the corrected walk, which leaves the iteration after a particle hit |
| ErrorAnalysis.WalkCorrectedCounts | tools/eval_segmentation.py:67-129 | in the corrected walk the keys filed equal the errors counted, at most one per word of each side |
| ErrorAnalysis.WalkAgreesWithoutHits | tools/eval_segmentation.py:67-129 | where the walk meets no particle hit, the code and the corrected walk give the same counters |
| ErrorAnalysis.AnalyzeAll | tools/eval_segmentation.py:60-129 | the walk as written over every line pair `zip` forms, accumulated |
| ErrorAnalysis.AllHits | tools/eval_segmentation.py:60-87 | the particle hits over the compared line pairs |
| ErrorAnalysis.AnalyzeAllCounts | tools/eval_segmentation.py:60-129 | over all line pairs as written, the keys in the three counters are `total_errors` plus the particle hits, and the hits are at most `total_errors` |
| ErrorAnalysis.AnalyzeSelf | tools/eval_segmentation.py:60-129 | lines analysed against themselves give no error |
| ErrorAnalysis.AnalyzeAllCorrected | tools/eval_segmentation.py:60-129 | the corrected walk over every line pair, accumulated |
| ErrorAnalysis.AnalyzeAllCorrectedCounts | tools/eval_segmentation.py:60-129 | in the corrected analysis the keys in the three counters add up to `total_errors` |
| ErrorAnalysis.AnalyzeAgreesWithoutHits | tools/eval_segmentation.py:60-129 | without a particle hit, the analysis as written is the corrected one |
| ErrorAnalysis.ExampleHits | tools/eval_segmentation.py:80-83 | `kပါ` hits `ka` with one particle; `d` hits nothing |
| ErrorAnalysis.ParticleQuirkAsWritten | tools/eval_segmentation.py:80-87 | the loop as written counts one error but files two keys for a particle hit and skips the next pair |
| ErrorAnalysis.ParticleQuirkCorrected | tools/eval_segmentation.py:80-87 | the corrected loop counts two errors with one key each |
| ErrorAnalysis.ParticleLoop | tools/eval_segmentation.py:80-87 | the particle `for` loop files the pair once per hit and advances both pointers per hit, at most once |
| ErrorAnalysis.Extend | tools/eval_segmentation.py:90-98 | the `while` loop computes the combined word and its end |
| ErrorAnalysis.ClassifyPair | tools/eval_segmentation.py:89-129 | the case 3 to 5 code computes the classification |
| ErrorAnalysis.AnalyzeLine | tools/eval_segmentation.py:64-129 | the pointer loop of one line pair computes the walk as written |
| ErrorAnalysis.WalkStep | tools/eval_segmentation.py:67-129 | one iteration of the pointer loop, particle loop and cases 3 to 5 included, computes the step as written |
| ErrorAnalysis.MaxExists | tools/eval_segmentation.py:133-135 | a non-empty counter has a most common key |
| ErrorAnalysis.MaxOf | tools/eval_segmentation.py:133-135 | a key of the non-empty counter whose count no other key exceeds |
| ErrorAnalysis.SelectStep | tools/eval_segmentation.py:133-135 | taking a most common remaining key keeps the selection invariant |
| ErrorAnalysis.SelectDone | tools/eval_segmentation.py:133-135 | a selection that is full or exhausted is a top-k listing |
| ErrorAnalysis.TopK | tools/eval_segmentation.py:133-135 | `most_common(k)`: at most max(k, 0) distinct keys with their counts, non-increasing, and every key left out is no more common than any listed |
| ErrorAnalysis.AnalyzeErrors | tools/eval_segmentation.py:46-137 | `total_errors` is that of the walk as written over the compared line pairs; the keys filed are `total_errors` plus the particle hits, which are at most `total_errors`; each category is a top-k listing of its counter |

## Left out

- CLI and file I/O: the `main` functions, `read_lines`, and opening and closing files. The line loops (`Punctuation.ProcessStream`, `SpaceRemover.ProcessLines`) take the input as a list of lines and return what the loop writes (one string, or one line per input line). `main` rejects an out-of-range `--max-word-len`, while the constructor clamps it; only the constructor is modelled.
- Resource loaders (`_load_dict`, `_load_freq`, `_load_lm`, `_load_arpa_lm`): file reading and number parsing. The dictionary, the frequency term and the n-gram table are parameters.
- DAG visualisation (oppa_word.py:241-253, 321-330): it writes files and runs `dot`. It changes no result.
- Scoring.SylScore: `math.log` over floats is an abstract function `logMean`. Only the division by `len(word)` (the ZeroDivisionError on an empty word) is modelled. The ValueError that `math.log` raises for a frequency of 0 or less in the table is not modelled: `logMean` is total.
- Scoring.LmTerm: the KenLM scorer is an abstract function of the context string (with `bos=False, eos=False` fixed). A loaded binary model is taken to be truthy.
- Viterbi.Decode: scores are exact reals, and -inf is "unreached". Float rounding and overflow are not modelled.
- Segmenter.Segment: the best-path property is stated only without a language model. With one, the score depends on the history, and a single Viterbi pass is not optimal in general. With a language model the contract states instead that the path is the back-pointer trace of the state the Viterbi pass ends in (Segmenter.ViterbiChoice, with Viterbi.Decode's Justified, Earliest and Relaxed).
- PostEdit.ApplyRule: a regex rule's substitution is a parameter `sub`, and whether `re.compile` accepts a pattern is a parameter `compiles`. Literal rules are `str.replace`, including an empty source.
- TexWrap.ProcessMyanmarTextAsWritten: the template parser covers literals, `\1`-style groups and the escapes that fail; group references by name and octal escapes are not modelled.
- ErrorAnalysis.TopK: the tie order of `Counter.most_common` (insertion order) is not modelled. Any order of equally common keys is accepted.
- ErrorAnalysis.ErrorKey: the error keys are pairs of word lists instead of the formatted `REF: ... → HYP: ...` strings. Two different pairs can format to the same string only when words contain `|` or quote characters, and this is not modelled.
- The iteration order of the particle set does not matter, since at most one particle can end a word (ErrorAnalysis.AtMostOneParticle).
- SpaceRemover.NotNumSpaces: it does not say which gaps next to a Myanmar digit keep their space. Because matching is non-overlapping, some digit-adjacent gaps are not protected: in `၁ ၂ ၃ က` the digit-letter pass consumes ၃ while protecting `၂ ၃`, so the gap between ၃ and က is met by no protect pass and the letter loop deletes it. It requires a text without ☃, since a ☃ of the input becomes a space (SpaceRemover.RestoreSnowman).
- SpaceRemover.DigitGapKept: it gives the exact result only for a lone digit, whitespace run, digit text. SpaceRemover.NotNumSpaces states what holds for every text.
- SpaceRemover.ProtectDigitGap: it gives the exact protect result only for a lone digit gap. SpaceRemover.SubGapMarks and SpaceRemover.ProtectMarks state the general case.
- The warning that `calculate_metrics` prints for different line counts is output only.
- Evaluation.CalculateMetrics and ErrorAnalysis.AnalyzeErrors compute what the code computes. The corrected boundaries, alignment and pointer walk of the Findings are separate members (`CalculateMetricsCorrected`, `AnalyzeAllCorrected`). Neither `CalculateMetrics` nor `AnalyzeErrors` uses them; only the corrected members and the lemmas that compare the two versions do.

## Findings

| source | as written | input that shows it | evidently intended | confidence | as-written member | corrected member |
|---|---|---|---|---|---|---|
| oppa_word.py:184 | `history[-self.max_order+1:]` is `history[0:]` when max_order = 1, so the whole history goes into the binary-model context | max_order = 1, history = ["a"], word "b": context "a b" | a unigram context, as the ARPA branch uses (lengths up to max_order - 1 = 0) | medium, not executed | Scoring.BinaryContextOrderOne | Scoring.BinaryContextAgrees |
| tools/modify_tex.py:8, 27-31 | the font command goes into the `re.sub` template unescaped; the help's example `'\myfont'` is a bad escape | `--font-command '\myfont'`: `re.error` | the command inserted literally (which also changes the default `\\burmesefont`: taken literally it gives `{\\burmesefont …}`, not `{\burmesefont …}`) | high, not executed | TexWrap.SingleBackslashFails | TexWrap.ProcessMyanmarText |
| tools/eval_segmentation.py:38-43, 171-177 | boundary offsets count one space per word, so every word after a merge or split is shifted and no longer matches | ref "a b c" and hyp "ab c": `c` is (4, 5) against (3, 4), so no boundary is shared | offsets in the unspaced text, where `c` is (2, 3) on both sides | medium, not executed | Evaluation.SpacedOffsetsDrift | Evaluation.UnspacedBoundaryAt |
| tools/eval_segmentation.py:185-201 | the loop counts equal words without comparing positions, and advances by spaced positions | ref "a b c de f" and hyp "abc de f" count only `f`; ref "a aa" and hyp "aa a" count `a` | a word counted when both sides have it at the same offset of the text | medium, not executed | Evaluation.SpacedPositionsMissWord | Evaluation.AlignedUnspacedCountsShared |
| tools/eval_segmentation.py:80-87 | the `continue` in the particle branch continues the `for` loop; the pointers move on and cases 3 to 5 still run on the stale words | ref ["ka", "c"], hyp ["kပါ", "d"]: one error is counted, two keys are filed, and pair (c, d) is skipped | leave the `while` iteration after a particle hit | high, not executed | ErrorAnalysis.ParticleQuirkAsWritten | ErrorAnalysis.ParticleQuirkCorrected |
