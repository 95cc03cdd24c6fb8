# PAKNEVIS text normalisation, modelled in Dafny

PAKNEVIS is a LibreOffice macro that tidies Persian prose. Its core is a
chain of string-rewriting rules (`fix_k_y`, the digit translators,
`fix_punct`, `fix_quotes`, the morphological joiners, the whitespace
rules, `fix_ellipsis`, `fix_fake_hyphens_with_zwnj`), which `fix_all`
folds over the text in a fixed order. Each rule also adds to a report
of how many corrections of each kind it made.

This project models that core as pure functions on `string`
(`seq<char>`) and proves what each rule guarantees. A rule returns a
`Rewrite`: the new text together with the amounts it adds to the report
(a delta, `map<Label, nat>`). `Pipeline.Step` adds each delta to the
running report, which is what the source's in-place
`report_counts[...] += n` amounts to.

Modules, in dependency order:

- `Chars`: the glyph classes.
  - Python's `\s` (`IsSpace`), which includes U+2005 but not ZWNJ.
  - The quote glyphs, the bracket and punctuation classes of the
    patterns, and the seven invisible characters.
- `Counters`: one report label per report line; deltas, their sum, and
  "only these labels".
- `Text`: character maps, counts, whitespace runs, and the relation
  "only whitespace was deleted" (the non-space subsequence is kept).
- `Runs`: `re.subn("c{min,}", rep, s)` as a recursive scan.
  - A reference count of maximal runs, the result of erasing the run
    characters, and the "no two / no three in a row" predicates.
- `Substitution`: `fix_k_y`, `en_numbers_to_fa` / `ar_numbers_to_fa` and
  their two rules, and `fix_fake_hyphens_with_zwnj`.
- `Punctuation`: `fix_punct` (the character table, then the `؟` and `!`
  run collapses) and `fix_ellipsis`.
- `Quotes`: `fix_quotes`, a left-to-right fold with an open/close state,
  and its final fix-up.
- `Whitespace`: `fix_spaces` (ten look-around passes),
  `fix_space_before_punct` (the scan with its `repl`) and
  `fix_extra_spaces`.
- `Morphology`: the per-match decision functions of `fix_me_nemi`,
  `fix_prefix_verbs` and `fix_suffixes`, with their word lists.
- `Pipeline`: `fix_all`.
  - The stage list built from the option flags with `options.get(key, True)`.
  - The fold over that list, and its equivalence with a fold over all
    fifteen stages in which a disabled stage is the identity.

Details of PAKNEVIS.py that the model keeps:

- `simple_verbs` (PAKNEVIS.py:47-52) has 25 entries.
- The fix-up at the end of `fix_quotes` (PAKNEVIS.py:235-236) looks at
  the last character of the text. When the number of quotes is odd and
  that character is `«`, it becomes `»`. This also applies to a `«` that
  was in the text before and ends it.
- The guillemets `fix_quotes` writes (PAKNEVIS.py:227-236) split evenly
  into `«` and `»` when the number of quotes is even. When it is odd, one
  side has one more.
- The capture class of `fix_space_before_punct` (PAKNEVIS.py:337) holds
  none of `(`, `[` and `«`. So the branch of `repl` for those characters
  (PAKNEVIS.py:328-334) is never taken, and every match becomes the bare
  mark.
- `fix_all` reads each flag with `options.get(key, True)`
  (PAKNEVIS.py:377-391), so a missing key means on.
- `load_config`'s defaults (PAKNEVIS.py:55-61) set `fix_dict` to false.
  They have no entry for `fix_space_before_punct`, so that stage is on.

## Model

| member | source | states |
|---|---|---|
| Substitution.FixKY | PAKNEVIS.py:186-195 | Output has the input's length. No Arabic kaf or yeh is left: each became its Persian letter. Every other character is unchanged. Each counter equals the number of positions that rule altered. |
| Substitution.FixKYIdempotent | PAKNEVIS.py:186-195 | A second run of fix_k_y changes nothing and counts nothing. |
| Substitution.EnNumbersToFa | PAKNEVIS.py:24-25 | Every ASCII digit becomes the Persian digit of the same value at the same position. Nothing else changes, and no ASCII digit is left. |
| Substitution.ArNumbersToFa | PAKNEVIS.py:27-28 | The same for Arabic-Indic digits. |
| Substitution.FixNumbersEn | PAKNEVIS.py:197-200 | Same length. No ASCII digit remains, each is translated by value, and other characters are kept. The counter equals the number of digits changed. Only that label is touched. |
| Substitution.FixNumbersAr | PAKNEVIS.py:202-205 | The same for Arabic-Indic digits and their counter. |
| Substitution.FixNumbersEnIdempotent | PAKNEVIS.py:197-200 | A second pass changes nothing and counts nothing. |
| Substitution.FixNumbersArIdempotent | PAKNEVIS.py:202-205 | A second pass changes nothing and counts nothing. |
| Substitution.FakeCharsDistinct | PAKNEVIS.py:357-365 | The seven invisible characters are distinct, and ZWNJ is not one of them. |
| Substitution.ReplaceEach | PAKNEVIS.py:366-371 | The loop of `str.replace` calls maps each listed character to ZWNJ and keeps the rest. Its total is the number of listed characters in the input. |
| Substitution.FakeLoopIsMap | PAKNEVIS.py:357-371 | The seven successive replacements equal one character map. The total equals the number of invisible characters. |
| Substitution.FixFakeHyphens | PAKNEVIS.py:356-373 | Same length. None of the seven characters remains: each became ZWNJ. Others are kept. The counter equals the number of characters changed. |
| Substitution.FixFakeHyphensIdempotent | PAKNEVIS.py:356-373 | A second pass changes nothing and counts nothing. |
| Punctuation.ReplacePunctIsMap | PAKNEVIS.py:208-216 | `ReplacePunct`, the five successive `str.replace` calls, equals one map through the table. Each of its five counts equals that character's occurrences in the input. |
| Punctuation.FixPunct | PAKNEVIS.py:207-221 | No ASCII `, ; ? $ %` remains, and no two `؟` and no two `!` are adjacent. Apart from `؟` and `!`, the text equals the table-mapped input. The comma, semicolon, question and percent counters equal their occurrences; `$` is mapped but not counted. The two run counters equal the number of maximal runs of length at least 2. |
| Punctuation.PunctRunCounts | PAKNEVIS.py:217-220 | Each `re.subn` count is the number of maximal runs of length at least 2, not the number of characters. |
| Punctuation.PunctNoDoubles | PAKNEVIS.py:217-220 | After the two collapses, no two `؟` and no two `!` are adjacent. |
| Punctuation.PunctErase | PAKNEVIS.py:217-220 | With `؟` and `!` erased, the output of the two collapses equals their input: every other character stays, in order. How each run of `؟` or `!` comes out is stated by `QuestionRunToOne` and `ExclamationRunToOne`. |
| Punctuation.FixPunctIdempotent | PAKNEVIS.py:207-221 | A second fix_punct changes neither the text nor any counter. |
| Punctuation.QuestionRunToOne | PAKNEVIS.py:208-218 | A maximal run of question marks, `?` and `؟` in any mix, becomes exactly one `؟`; a lone mark is kept. The text on either side is rewritten as if on its own. |
| Punctuation.ExclamationRunToOne | PAKNEVIS.py:217-220 | A maximal run of `!` becomes exactly one `!`; a lone `!` is kept. The text on either side is rewritten as if on its own. |
| Punctuation.PunctFixedText | PAKNEVIS.py:207-221 | Text with no ASCII punctuation and no doubled `؟`/`!` is a fixed point of every step, with zero counts. |
| Punctuation.FixEllipsis | PAKNEVIS.py:349-354 | No three dots remain in a row. Apart from dots and `…` the text is unchanged. The counter is the number of maximal runs of at least three dots. The rule is the identity with a zero count exactly when the input has no three dots in a row. |
| Punctuation.ShortDotsUntouched | PAKNEVIS.py:353 | A run of one or two dots, bounded by other characters, passes through unchanged. |
| Punctuation.LongDotsBecomeEllipsis | PAKNEVIS.py:349-354 | A maximal run of three or more dots becomes exactly one `…` and adds exactly one to the counter. The text on either side is rewritten as if on its own. |
| Runs.Collapse | PAKNEVIS.py:217 | Each match of `c{min,}` shortens the text, so the count plus the output length is at most the input length. With no match the text is unchanged. A head that is not `c`, or a head `c` that maps to itself, is kept. |
| Runs.CollapseErase | PAKNEVIS.py:217-219 | With `c` and its replacement erased, the output equals the input. |
| Runs.CollapseCountsRuns | PAKNEVIS.py:217-219 | The match count equals the reference count of maximal runs of at least `min`. |
| Runs.CollapseLeavesNoRun | PAKNEVIS.py:217-219 | No run of `min` copies of `c` survives. |
| Runs.CollapseIdempotent | PAKNEVIS.py:217-219 | Collapsing twice gives what collapsing once gives, with a zero second count. |
| Runs.PairRunsIffDouble | PAKNEVIS.py:217-219 | The `{2,}` collapse finds nothing if and only if no two copies of the character touch. |
| Runs.TripleRunsIffTriple | PAKNEVIS.py:353 | The `{3,}` collapse finds nothing if and only if no three copies touch. |
| Runs.CollapseAppend | PAKNEVIS.py:217-220 | When no run of `c` straddles the seam (one side is empty, the left does not end in `c`, or the right does not start with it), the collapse of a concatenation is the concatenation of the collapses, and the counts add. |
| Runs.ShortRunKept | PAKNEVIS.py:353 | A maximal run of `c` shorter than `min` at the front is copied unchanged and not counted; the rest collapses on its own. |
| Runs.LongRunCollapsed | PAKNEVIS.py:217-220 | A maximal run of at least `min` copies of `c` at the front becomes exactly one `rep` and counts one match; the rest collapses on its own. |
| Runs.RunBecomesOne | PAKNEVIS.py:217-220 | For `c{2,}` → `c`, a maximal run of `c` in the middle of a text becomes exactly one `c`, a lone `c` included. |
| Runs.OtherPassesBy | PAKNEVIS.py:217-220 | A stretch holding no `c` passes through the collapse unchanged, and the text on either side collapses on its own. |
| Runs.CollapseNone | PAKNEVIS.py:217-220 | A text holding no `c` is returned unchanged with a zero count. |
| Runs.CollapseLast | PAKNEVIS.py:217-219 | When neither `c` nor its replacement is `d`, a text that does not end in `d` still does not after the collapse. |
| Quotes.Pair | PAKNEVIS.py:227-234 | The fold keeps the length and leaves non-quotes alone. A quote becomes « exactly when the number of quotes before it has the parity of the starting state. |
| Quotes.FixLast | PAKNEVIS.py:235-236 | Only the last character may change, and only a final « under an odd count, which becomes ». The guillemet count is unchanged. |
| Quotes.FlipLast | PAKNEVIS.py:236 | Turning the last « into » moves one from the « count to the » count. |
| Quotes.FixQuotes | PAKNEVIS.py:223-239 | Same length, and no quote glyph remains. Each quote except an unpaired last one gets « or » by the parity of the quotes before it. Non-quotes are kept. The last character follows the fix-up. The guillemet count grows by the number of quotes. The counter grows by `cnt // 2`. Quote-free text is returned unchanged with no count. |
| Quotes.PairGuillemets | PAKNEVIS.py:228-234 | Every quote becomes a guillemet and nothing else does. |
| Quotes.PairOpenClose | PAKNEVIS.py:228-234 | Starting open, the fold adds `(q+1)/2` « and `q/2` » for `q` quotes. |
| Quotes.EvenQuotesBalance | PAKNEVIS.py:223-239 | With an even quote count, exactly `q/2` « and `q/2` » are added. |
| Quotes.OddQuotesTrailingFix | PAKNEVIS.py:235-236 | With an odd count and a fold that ends in «, the fix-up yields one more » than «. |
| Quotes.EvenQuotesAlternate | PAKNEVIS.py:227-234 | With an even quote count, two quotes with no quote between them get different guillemets, and the first quote gets «. |
| Whitespace.DropAfter | PAKNEVIS.py:308 | `(?<=o)\s+` deletes only whitespace and leaves none after a character of class `o`. Each match deletes at least one character, and with no match the text is unchanged. |
| Whitespace.DropBefore | PAKNEVIS.py:309 | `\s+(?=q)` deletes only whitespace and keeps a non-space head. Each match deletes at least one character, and with no match the text is unchanged. |
| Whitespace.DropBeforeClean | PAKNEVIS.py:309 | Afterwards no whitespace precedes a character of class `q`. |
| Whitespace.DropAfterFrame | PAKNEVIS.py:308 | A whitespace run that does not follow a character of class `o` is kept whole, and no count is added for it. The text on either side is scanned on its own. |
| Whitespace.DropBeforeFrame | PAKNEVIS.py:309 | A whitespace run followed by neither whitespace nor a character of class `q` is kept whole, and no count is added for it. The text on either side is scanned on its own. |
| Whitespace.DropAfterLast | PAKNEVIS.py:308 | A last character that is not whitespace is never deleted. |
| Whitespace.DropBeforeLast | PAKNEVIS.py:309 | A last character that is not whitespace is never deleted. |
| Whitespace.DropAfterCount | PAKNEVIS.py:320 | The count is the number of (class `o`, whitespace) neighbour pairs in the input. |
| Whitespace.DropBeforeCount | PAKNEVIS.py:320 | The count is the number of (whitespace, class `q`) neighbour pairs in the input. |
| Whitespace.AfterKeepsAfter | PAKNEVIS.py:319-320 | A look-behind pass for one bracket keeps "no whitespace after" for any other class. |
| Whitespace.BeforeKeepsBefore | PAKNEVIS.py:319-320 | A look-ahead pass for one bracket keeps "no whitespace before" for any other non-space class. |
| Whitespace.AfterKeepsBefore | PAKNEVIS.py:319-320 | A later look-behind pass does not undo what an earlier look-ahead pass achieved. |
| Whitespace.BeforeKeepsAfter | PAKNEVIS.py:319-320 | A later look-ahead pass does not undo what an earlier look-behind pass achieved. |
| Whitespace.PassCount | PAKNEVIS.py:320 | One pass counts the bracket/whitespace pairs on its side of the bracket. |
| Whitespace.RunPasses | PAKNEVIS.py:319-321 | The passes in sequence delete only whitespace. The summed count is at most the number of characters deleted, and with a zero count the text is unchanged. |
| Whitespace.RunPassesClean | PAKNEVIS.py:319-321 | After all passes, every pass's condition holds. |
| Whitespace.RunPassesIdle | PAKNEVIS.py:319-321 | On text that already meets every pass's condition, the passes change nothing and count nothing. |
| Whitespace.PassFrame | PAKNEVIS.py:319-320 | One pass keeps whole a whitespace run whose neighbours are not the bracket it trims on that side, and keeps those neighbours. |
| Whitespace.RunPassesFrame | PAKNEVIS.py:319-321 | The passes in sequence keep whole a whitespace run whose neighbours none of them trims; the counts of the two sides add. |
| Whitespace.FixSpaces | PAKNEVIS.py:306-322 | fix_spaces only deletes whitespace. No whitespace follows `« ( [ { ⟨` and none precedes `» ) ] } ⟩`. The counter is zero exactly when the text is unchanged. |
| Whitespace.FixSpacesIdle | PAKNEVIS.py:306-322 | Text with no whitespace inside its brackets is left alone. |
| Whitespace.FixSpacesIdempotent | PAKNEVIS.py:306-322 | A second fix_spaces changes nothing and counts nothing. |
| Whitespace.FixSpacesFrame | PAKNEVIS.py:306-322 | Whitespace that is not just inside a bracket is kept whole: a run between a character that is neither whitespace nor an opener and one that is neither whitespace nor a closer comes out unchanged, and the counter does not grow for it. |
| Whitespace.BeforePunctRepl | PAKNEVIS.py:326-336 | For every mark the capture class can produce, `repl` returns the mark alone. The opener branch of line 328 is never taken. |
| Whitespace.PunctScanCount | PAKNEVIS.py:337-339 | `PunctScan`, the `re.subn` of line 337 with `repl`, makes one match per mark of the class, whether or not whitespace preceded it. |
| Whitespace.PunctScanIsDropBefore | PAKNEVIS.py:326-340 | `PunctScan` deletes exactly the whitespace runs that precede a mark of the class, as `DropBefore` does. |
| Whitespace.FixSpaceBeforePunct | PAKNEVIS.py:324-340 | Only whitespace is deleted, and none is left before `، ؛ : ؟ ! . » ] ) }`. The counter equals the number of those marks in the input. |
| Whitespace.FixSpaceBeforePunctIdempotent | PAKNEVIS.py:324-340 | A second pass leaves the text unchanged. |
| Whitespace.CollapseSpacesOnlyDeletes | PAKNEVIS.py:345 | `[ ]{2,}` → `" "` deletes spaces and nothing else. |
| Whitespace.CollapseSpacesKeepsBefore | PAKNEVIS.py:343-345 | The space collapse never puts whitespace back before a mark. |
| Whitespace.FixExtraSpaces | PAKNEVIS.py:342-347 | Only whitespace is deleted. None precedes `، ؛ ؟ . ) » ] } ⟩`, and no two ASCII spaces are adjacent. The counter is the number of (whitespace, mark) pairs plus the number of space runs collapsed. It is zero exactly when the text is unchanged. |
| Whitespace.FixExtraSpacesIdempotent | PAKNEVIS.py:342-347 | A second fix_extra_spaces changes nothing and counts nothing. |
| Whitespace.ExtraSpacesFrame | PAKNEVIS.py:342-347 | A run of ASCII spaces that is not in front of a mark becomes exactly one space: two or more collapse, a single one is kept. The text on either side is rewritten on its own. |
| Morphology.VerbEndings | PAKNEVIS.py:247-256 | "Ends in one of the six verb suffixes, or is one of the six compound stems" holds exactly when the word ends in م, ی or د, or is شده, رفت or گشت. |
| Morphology.ListedIsVerbLike | PAKNEVIS.py:247-256 | Every word that ends in a listed suffix or is a listed stem ends in م, ی or د, or is شده, رفت or گشت. |
| Morphology.VerbLikeIsListed | PAKNEVIS.py:247-256 | Every word that ends in م, ی or د, or is شده, رفت or گشت, ends in a listed suffix or is a listed stem. |
| Morphology.MeNemiDecision | PAKNEVIS.py:249-259 | The prefix is joined with ZWNJ and counted once exactly for verb-like words. Otherwise the match is returned unchanged and nothing is counted. |
| Morphology.SimpleVerbsAreInfinitives | PAKNEVIS.py:47-52 | Every entry of `simple_verbs` ends in ن. |
| Morphology.BlockWordsAreNotVerbs | PAKNEVIS.py:264-269 | No block word is in `simple_verbs`, so the block-list test never decides anything alone. |
| Morphology.PrefixVerbDecision | PAKNEVIS.py:266-272 | The prefix is glued to the word with no ZWNJ, counted once, exactly when the word is in `simple_verbs` (and hence not a block word). Otherwise the match is kept and nothing is counted. |
| Morphology.SuffixDecision | PAKNEVIS.py:277-296 | For a match containing whitespace: word + suffix, with a ZWNJ between them exactly when the suffix is not glued. Otherwise the match is kept. Every match is counted once. |
| Morphology.SingleLettersGlued | PAKNEVIS.py:282-286 | The one-letter suffixes م ت ش join with no ZWNJ. |
| Morphology.PluralsGluedUnlessHeh | PAKNEVIS.py:284-292 | مان تان شان take a ZWNJ if and only if the word ends in ه. |
| Morphology.LongSuffixesTakeZwnj | PAKNEVIS.py:276-293 | Every other suffix alternative takes a ZWNJ. |
| Morphology.SuffixMatchRewritten | PAKNEVIS.py:280-294 | The pattern's `\s+` guarantees whitespace in every match, so the early return at line 280 is unreachable and every match is rewritten. |
| Pipeline.SelectMembers | PAKNEVIS.py:376-391 | `Select`, the list built by the fifteen `options.get(key, True)` tests (`Enabled`, keyed by `Key`), holds a stage exactly when it is listed and its option is on. |
| Pipeline.SelectKeepsOrder | PAKNEVIS.py:377-391 | The enabled stages run in the order of lines 377-391. |
| Pipeline.Step | PAKNEVIS.py:393 | One stage's amounts are added to the running report, so no counter ever decreases. |
| Pipeline.Run | PAKNEVIS.py:392-393 | Each stage consumes the previous output. The report only grows. |
| Pipeline.FixAll | PAKNEVIS.py:375-394 | fix_all only adds to the report. |
| Pipeline.SelectThenRun | PAKNEVIS.py:376-393 | Building the list of enabled stages and folding over it equals folding over all stages with the disabled ones as the identity. |
| Pipeline.FixAllIsGuarded | PAKNEVIS.py:375-394 | fix_all equals the fold over all fifteen stages in which a stage whose flag is false is the identity. |
| Pipeline.DisabledIsSkipped | PAKNEVIS.py:377-393 | When a stage's key is set to false, fix_all gives exactly what it gives with that stage struck from its list. |
| Pipeline.SkipDisabled | PAKNEVIS.py:376-391 | Striking a disabled stage from a list does not change which stages are selected. |
| Pipeline.MissingKeyIsOn | PAKNEVIS.py:377-391 | A key absent from the options behaves exactly like the key set to true. |
| Pipeline.AllOffIsIdentity | PAKNEVIS.py:375-394 | With every flag false, fix_all returns the text and report unchanged. |
| Pipeline.NoOptionsSelectsAll | PAKNEVIS.py:377-391 | With an empty options map, all fifteen stages run, fix_dict included. |
| Pipeline.DefaultsEnabled | PAKNEVIS.py:55-61 | load_config's defaults enable every stage but fix_dict, including fix_space_before_punct, which has no entry. |
| Pipeline.DefaultsSelectAllButDict | PAKNEVIS.py:55-61 | From load_config's defaults, fix_all runs every stage except fix_dict, in order. |
| Pipeline.NoFakeHyphensAtEnd | PAKNEVIS.py:391-393 | fix_fake_hyphens runs last, so when it is on, none of the seven invisible characters survives fix_all, whatever the other stages do. |

## Left out

- The LibreOffice side is not modelled: `show_dialog`, the window listener, `fix_text_full`'s document and paragraph loop, and the message box. These are user interface and host-document plumbing.
- Report formatting (PAKNEVIS.py:431-446) is not modelled. It only displays the counters. The labels it starts from (PAKNEVIS.py:406-418) are the `Counters.Label` constructors.
- File I/O is not modelled: `log_error`, `load_config` and `save_config` reading and writing the configuration file, and `load_replacements` with the `REPLACEMENTS` global. Only the default option values of `load_config` are modelled, as `Pipeline.LOAD_CONFIG_DEFAULTS`.
- `fix_dict` is a parameter of the pipeline (`Pipeline.Scanners.dict`). Its behaviour depends on a JSON word list and on `re.escape` and Unicode `\b`.
- `fix_he_ye` is a parameter of the pipeline. Its pattern relies on greedy `\S*` with backtracking and Unicode `\b`.
- The scanning of `fix_me_nemi`, `fix_prefix_verbs` and `fix_suffixes` is not modelled. Finding matches relies on look-behind, Unicode `\b` and Python's Arabic-block character ranges. The pipeline takes the three rules as parameters; their per-match decisions are modelled in `Morphology`.
- Whitespace.FixSpaces: its contract bounds the counter by the number of characters deleted, and states it is zero exactly when the text is unchanged. The exact amount is stated per pass by `Whitespace.PassCount` and is not summed over the ten passes.
- Whitespace.FixSpaceBeforePunctIdempotent: states that the text is unchanged by a second pass, not that the second count is zero. The source counts one match per mark even when nothing is deleted, so the second count is not zero.
- Pipeline.FixAll: its contract states only that the report grows. What the text becomes is given by `Pipeline.FixAllIsGuarded` together with each stage's own contract.
