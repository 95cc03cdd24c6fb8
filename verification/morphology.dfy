/** The per-match decisions of the three ZWNJ rules (PAKNEVIS.py:246-296):
    given what the pattern captured, what the match is replaced by and
    whether the rule's counter grows. Finding the matches is not modelled;
    each decision takes the captured groups and the whitespace between them. */
module Morphology {
  import opened Chars
  import opened Counters

  const MIM: char := '\U{0645}'
  const DAL: char := '\U{062F}'
  const HEH: char := '\U{0647}'

  /** `w.endswith(suf)`. */
  predicate EndsWith(w: string, suf: string) {
    |suf| <= |w| && w[|w| - |suf|..] == suf
  }

  /** Some whitespace character occurs in `s` (`re.search(r"\s", s)`). */
  predicate HasSpace(s: string) {
    exists i :: 0 <= i < |s| && IsSpace(s[i])
  }

  // ----- fix_me_nemi -----

  /** VERB_SUFFIXES: م ی د یم ید ند. */
  const VERB_SUFFIXES: seq<string> := [
    "\U{0645}", "\U{06CC}", "\U{062F}", "\U{06CC}\U{0645}", "\U{06CC}\U{062F}", "\U{0646}\U{062F}"]

  /** compound_verbs: شده رفت آمد خورد گشت شد. */
  const COMPOUND_VERBS: seq<string> := [
    "\U{0634}\U{062F}\U{0647}", "\U{0631}\U{0641}\U{062A}", "\U{0622}\U{0645}\U{062F}",
    "\U{062E}\U{0648}\U{0631}\U{062F}", "\U{06AF}\U{0634}\U{062A}", "\U{0634}\U{062F}"]

  predicate EndsWithAny(w: string, sufs: seq<string>) {
    exists k :: 0 <= k < |sufs| && EndsWith(w, sufs[k])
  }

  /** Reference for when a word after می/نمی is joined: it ends in م, ی or
      د, or it is one of the compound stems شده, رفت, گشت (the other three
      compound stems already end in د). */
  predicate VerbLike(word: string) {
    || (|word| > 0 && word[|word| - 1] in {MIM, PERSIAN_YEH, DAL})
    || word == "\U{0634}\U{062F}\U{0647}" || word == "\U{0631}\U{0641}\U{062A}"
    || word == "\U{06AF}\U{0634}\U{062A}"
  }

  /** `replace_func` of fix_me_nemi for a match `prefix + gap + word`:
      either the prefix is joined to the word with a ZWNJ and counted, or
      the match is returned as it was. */
  function MeNemiDecision(prefix: string, gap: string, word: string): (r: Rewrite)
    ensures VerbLike(word) ==> r.text == prefix + [ZWNJ] + word && Get(r.delta, VerbPrefixSpace) == 1
    ensures !VerbLike(word) ==> r.text == prefix + gap + word && Zero(r.delta)
    ensures Within(r.delta, {VerbPrefixSpace})
  {
    VerbEndings(word);
    if EndsWithAny(word, VERB_SUFFIXES) then
      Rewrite(prefix + [ZWNJ] + word, map[VerbPrefixSpace := 1])
    else if word in COMPOUND_VERBS then
      Rewrite(prefix + [ZWNJ] + word, map[VerbPrefixSpace := 1])
    else
      Rewrite(prefix + gap + word, map[])
  }

  lemma EndsWithLast(w: string, suf: string)
    requires |suf| > 0 && EndsWith(w, suf)
    ensures w[|w| - 1] == suf[|suf| - 1]
  {
    assert w[|w| - |suf|..][|suf| - 1] == w[|w| - 1];
  }

  lemma EndsWithChar(w: string, c: char)
    requires |w| > 0 && w[|w| - 1] == c
    ensures EndsWith(w, [c])
  {
    assert w[|w| - 1..] == [w[|w| - 1]];
  }

  /** The literal lists decide exactly as the reference does. */
  lemma VerbEndings(word: string)
    ensures EndsWithAny(word, VERB_SUFFIXES) || word in COMPOUND_VERBS <==> VerbLike(word)
  {
    ListedIsVerbLike(word);
    VerbLikeIsListed(word);
  }

  /** Every word the lists accept is verb-like. */
  lemma ListedIsVerbLike(word: string)
    ensures EndsWithAny(word, VERB_SUFFIXES) || word in COMPOUND_VERBS ==> VerbLike(word)
  {
    if EndsWithAny(word, VERB_SUFFIXES) {
      var k :| 0 <= k < |VERB_SUFFIXES| && EndsWith(word, VERB_SUFFIXES[k]);
      EndsWithLast(word, VERB_SUFFIXES[k]);
      SuffixEnds(k);
    }
  }

  lemma SuffixEnds(k: nat)
    requires k < |VERB_SUFFIXES|
    ensures var suf := VERB_SUFFIXES[k]; |suf| > 0 && suf[|suf| - 1] in {MIM, PERSIAN_YEH, DAL}
  {
  }

  /** Every verb-like word is accepted by the lists. */
  lemma VerbLikeIsListed(word: string)
    ensures VerbLike(word) ==> EndsWithAny(word, VERB_SUFFIXES) || word in COMPOUND_VERBS
  {
    if |word| > 0 {
      var last := word[|word| - 1];
      if last == MIM {
        EndsWithChar(word, MIM);
        assert EndsWith(word, VERB_SUFFIXES[0]);
      } else if last == PERSIAN_YEH {
        EndsWithChar(word, PERSIAN_YEH);
        assert EndsWith(word, VERB_SUFFIXES[1]);
      } else if last == DAL {
        EndsWithChar(word, DAL);
        assert EndsWith(word, VERB_SUFFIXES[2]);
      }
    }
  }
  // ----- fix_prefix_verbs -----

  /** simple_verbs (PAKNEVIS.py:47-52): 25 infinitives. */
  const SIMPLE_VERBS: seq<string> := [
    "\U{0622}\U{0645}\U{062F}\U{0646}", "\U{0622}\U{0648}\U{0631}\U{062F}\U{0646}",
    "\U{0627}\U{0646}\U{062F}\U{0627}\U{062E}\U{062A}\U{0646}", "\U{0628}\U{0631}\U{062F}\U{0646}",
    "\U{0628}\U{0633}\U{062A}\U{0646}", "\U{0628}\U{0648}\U{062F}\U{0646}",
    "\U{062E}\U{0648}\U{0627}\U{0633}\U{062A}\U{0646}", "\U{062E}\U{0648}\U{0627}\U{0646}\U{062F}\U{0646}",
    "\U{062E}\U{0648}\U{0631}\U{062F}\U{0646}", "\U{062F}\U{0627}\U{062F}\U{0646}",
    "\U{062F}\U{0627}\U{0634}\U{062A}\U{0646}", "\U{062F}\U{0627}\U{0646}\U{0633}\U{062A}\U{0646}",
    "\U{062F}\U{06CC}\U{062F}\U{0646}", "\U{0631}\U{0641}\U{062A}\U{0646}",
    "\U{0632}\U{062F}\U{0646}", "\U{0634}\U{062F}\U{0646}",
    "\U{0634}\U{0633}\U{062A}\U{0646}", "\U{0634}\U{06A9}\U{0633}\U{062A}\U{0646}",
    "\U{0634}\U{0646}\U{06CC}\U{062F}\U{0646}", "\U{06A9}\U{0631}\U{062F}\U{0646}",
    "\U{06AF}\U{0631}\U{0641}\U{062A}\U{0646}", "\U{06AF}\U{0634}\U{062A}\U{0646}",
    "\U{06AF}\U{0641}\U{062A}\U{0646}", "\U{0646}\U{0648}\U{0634}\U{062A}\U{0646}",
    "\U{06CC}\U{0627}\U{0641}\U{062A}\U{0646}"]

  /** block_words: می نمی خواهد باید که. */
  const BLOCK_WORDS: seq<string> := [
    "\U{0645}\U{06CC}", "\U{0646}\U{0645}\U{06CC}", "\U{062E}\U{0648}\U{0627}\U{0647}\U{062F}",
    "\U{0628}\U{0627}\U{06CC}\U{062F}", "\U{06A9}\U{0647}"]

  /** Ends in ن, as every infinitive does. */
  predicate Infinitive(v: string) {
    |v| > 0 && v[|v| - 1] == '\U{0646}'
  }

  lemma SimpleVerbsAreInfinitives()
    ensures forall v :: v in SIMPLE_VERBS ==> Infinitive(v)
  {
  }

  /** No block word ends in ن, so none is a simple verb: the block-list
      test never decides anything on its own. */
  lemma BlockWordsAreNotVerbs()
    ensures forall w :: w in BLOCK_WORDS ==> w !in SIMPLE_VERBS
  {
    SimpleVerbsAreInfinitives();
    forall w | w in BLOCK_WORDS ensures !Infinitive(w) {
    }
  }

  /** `repl` of fix_prefix_verbs for a match `prefix + gap + next_word`:
      the verbal prefix is glued to a simple verb (no ZWNJ) and counted;
      any other word leaves the match as it was. */
  function PrefixVerbDecision(prefix: string, gap: string, word: string): (r: Rewrite)
    ensures word in SIMPLE_VERBS ==> r.text == prefix + word && Get(r.delta, PrefixVerbSpace) == 1
    ensures word !in SIMPLE_VERBS ==> r.text == prefix + gap + word && Zero(r.delta)
    ensures Within(r.delta, {PrefixVerbSpace})
  {
    BlockWordsAreNotVerbs();
    if word in BLOCK_WORDS || word !in SIMPLE_VERBS then
      Rewrite(prefix + gap + word, map[])
    else
      Rewrite(prefix + word, map[PrefixVerbSpace := 1])
  }

  // ----- fix_suffixes -----

  /** The alternatives of the suffix group, in pattern order. */
  const SUFFIXES: seq<string> := [
    "\U{062A}\U{0631}", "\U{062A}\U{0631}\U{06CC}\U{0646}", "\U{0647}\U{0627}",
    "\U{0645}", "\U{062A}", "\U{0634}",
    "\U{0627}\U{0645}", "\U{0627}\U{062A}", "\U{0627}\U{0634}",
    "\U{0627}\U{06CC}\U{0645}", "\U{0627}\U{06CC}\U{062F}", "\U{0627}\U{0646}\U{062F}",
    "\U{0645}\U{0627}\U{0646}", "\U{062A}\U{0627}\U{0646}", "\U{0634}\U{0627}\U{0646}"]

  const ONE_LETTER_SUFFIXES: seq<string> := ["\U{0645}", "\U{062A}", "\U{0634}"]
  const TWO_LETTER_SUFFIXES: seq<string> := ["\U{0627}\U{0645}", "\U{0627}\U{062A}", "\U{0627}\U{0634}"]
  const PLURAL_SUFFIXES: seq<string> := ["\U{0645}\U{0627}\U{0646}", "\U{062A}\U{0627}\U{0646}", "\U{0634}\U{0627}\U{0646}"]

  /** Reference for when a suffix is written straight onto the word: a
      one-letter possessive always, a plural possessive unless the word
      ends in ه; every other suffix takes a ZWNJ. */
  predicate Glued(word: string, suffix: string) {
    suffix in ONE_LETTER_SUFFIXES || (suffix in PLURAL_SUFFIXES && !EndsWith(word, [HEH]))
  }

  /** `fix_suffixes_func` for a match `word + gap + suffix`. The match is
      counted whatever is returned, because fix_suffixes adds the number
      of matches `re.subn` reports. */
  function SuffixDecision(word: string, gap: string, suffix: string): (r: Rewrite)
    ensures HasSpace(word + gap + suffix) ==>
      r.text == word + (if Glued(word, suffix) then [] else [ZWNJ]) + suffix
    ensures !HasSpace(word + gap + suffix) ==> r.text == word + gap + suffix
    ensures Get(r.delta, SuffixSpace) == 1 && Within(r.delta, {SuffixSpace})
  {
    var counted := map[SuffixSpace := 1];
    if !HasSpace(word + gap + suffix) then Rewrite(word + gap + suffix, counted)
    else if suffix in ONE_LETTER_SUFFIXES then Rewrite(word + suffix, counted)
    else if suffix in TWO_LETTER_SUFFIXES then Rewrite(word + [ZWNJ] + suffix, counted)
    else if suffix in PLURAL_SUFFIXES then
      if EndsWith(word, [HEH]) then Rewrite(word + [ZWNJ] + suffix, counted)
      else Rewrite(word + suffix, counted)
    else Rewrite(word + [ZWNJ] + suffix, counted)
  }

  // Which suffixes take a ZWNJ, by shape: the single letters never, the
  // three plural possessives only after ه, every other alternative of two
  // or more letters always.

  lemma SingleLettersGlued(word: string)
    ensures forall s :: s in SUFFIXES && |s| == 1 ==> Glued(word, s)
  {
  }

  lemma PluralsGluedUnlessHeh(word: string)
    ensures forall s :: s in PLURAL_SUFFIXES ==> (Glued(word, s) <==> !EndsWith(word, [HEH]))
  {
  }

  lemma LongSuffixesTakeZwnj(word: string)
    ensures forall s :: s in SUFFIXES && |s| >= 2 && s !in PLURAL_SUFFIXES ==> !Glued(word, s)
  {
  }

  /** The pattern puts at least one whitespace character between word and
      suffix, so the test at the top of fix_suffixes_func always passes
      and every match is rewritten: the whitespace is replaced by a ZWNJ or
      by nothing. */
  lemma SuffixMatchRewritten(word: string, gap: string, suffix: string)
    requires |gap| > 0 && forall i :: 0 <= i < |gap| ==> IsSpace(gap[i])
    ensures HasSpace(word + gap + suffix)
    ensures SuffixDecision(word, gap, suffix).text != word + gap + suffix
  {
    var m := word + gap + suffix;
    assert m[|word|] == gap[0];
    var r := SuffixDecision(word, gap, suffix).text;
    if !Glued(word, suffix) {
      assert r[|word|] == ZWNJ;
      if |gap| == 1 {
        assert m[|word|] != r[|word|];
      } else {
        assert |m| != |r|;
      }
    } else {
      assert |r| < |m|;
    }
  }
}
