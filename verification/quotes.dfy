/** fix_quotes (PAKNEVIS.py:223-239): straight and curly quotes become
    guillemets, alternating « and » from left to right; an odd last « is
    turned round; one counter grows by the number of pairs. */
module Quotes {
  import opened Chars
  import opened Counters
  import opened Text

  /** The `any(q in text ...)` test. */
  predicate HasQuote(s: string) {
    exists i :: 0 <= i < |s| && IsQuote(s[i])
  }

  /** Number of quote characters strictly before position `i`. */
  function QuotesBefore(s: string, i: nat): nat
    requires i <= |s|
  {
    CountIf(s[..i], IsQuote)
  }

  /** Reference for the guillemet a quote at position `i` receives when the
      fold starts in state `open`: the opening one exactly when an even
      number of quotes precede it and the fold started open, or an odd
      number precede it and the fold started closed. */
  function Mark(s: string, i: nat, open: bool): char
    requires i <= |s|
  {
    if (QuotesBefore(s, i) % 2 == 0) == open then OPEN_QUOTE else CLOSE_QUOTE
  }

  lemma CountIfPrefixCons(s: string, i: nat, p: char -> bool)
    requires 1 <= i <= |s|
    ensures CountIf(s[..i], p) == (if p(s[0]) then 1 else 0) + CountIf(s[1..][..i - 1], p)
  {
    assert s[..i][0] == s[0] && s[..i][1..] == s[1..][..i - 1];
  }

  /** The guillemet a quote becomes in state `open`. */
  function Glyph(open: bool): char {
    if open then OPEN_QUOTE else CLOSE_QUOTE
  }

  /** The state after reading `c` in state `open`. */
  function Next(c: char, open: bool): bool {
    if IsQuote(c) then !open else open
  }

  /** What the fold promises of its output `r` for input `s`. */
  predicate Paired(s: string, open: bool, r: string) {
    && |r| == |s|
    && (forall i :: 0 <= i < |s| && IsQuote(s[i]) ==> r[i] == Mark(s, i, open))
    && (forall i :: 0 <= i < |s| && !IsQuote(s[i]) ==> r[i] == s[i])
  }

  /** The loop of fix_quotes: a left-to-right fold whose state `open` says
      which guillemet the next quote becomes. */
  function Pair(s: string, open: bool): (r: string)
    ensures Paired(s, open, r)
    decreases |s|
  {
    if |s| == 0 then []
    else
      var rest := Pair(s[1..], Next(s[0], open));
      PairStep(s, open, rest);
      [if IsQuote(s[0]) then Glyph(open) else s[0]] + rest
  }

  lemma PairStep(s: string, open: bool, rest: string)
    requires |s| > 0 && Paired(s[1..], Next(s[0], open), rest)
    ensures Paired(s, open, [if IsQuote(s[0]) then Glyph(open) else s[0]] + rest)
  {
    var r := [if IsQuote(s[0]) then Glyph(open) else s[0]] + rest;
    assert s[..0] == [];
    forall i | 1 <= i < |s| ensures r[i] == rest[i - 1] && s[i] == s[1..][i - 1] {
    }
    forall i | 1 <= i < |s| && IsQuote(s[i]) ensures Mark(s, i, open) == Mark(s[1..], i - 1, Next(s[0], open)) {
      CountIfPrefixCons(s, i, IsQuote);
    }
  }

  /** fix_quotes as written. */
  function FixQuotes(t: string): (r: Rewrite)
    ensures |r.text| == |t|
    ensures forall i :: 0 <= i < |r.text| ==> !IsQuote(r.text[i])
    ensures forall i :: 0 <= i < |t| && IsQuote(t[i]) && (i < |t| - 1 || CountIf(t, IsQuote) % 2 == 0) ==>
      r.text[i] == Mark(t, i, true)
    ensures forall i :: 0 <= i < |t| - 1 && !IsQuote(t[i]) ==> r.text[i] == t[i]
    ensures |t| > 0 ==> (r.text[|t| - 1] ==
      if CountIf(t, IsQuote) % 2 == 1 && Pair(t, true)[|t| - 1] == OPEN_QUOTE then CLOSE_QUOTE
      else Pair(t, true)[|t| - 1])
    ensures CountIf(r.text, IsGuillemet) == CountIf(t, IsGuillemet) + CountIf(t, IsQuote)
    ensures Get(r.delta, EnQuotes) == CountIf(t, IsQuote) / 2
    ensures Within(r.delta, {EnQuotes})
    ensures !HasQuote(t) ==> r.text == t && Zero(r.delta)
  {
    if !HasQuote(t) then
      CountIfAbsent(t, IsQuote);
      Rewrite(t, map[])
    else
      var p := Pair(t, true);
      var cnt := CountIf(t, IsQuote);
      PairGuillemets(t, true);
      PairHasNoQuote(t, true);
      Rewrite(FixLast(p, cnt % 2 == 1), map[EnQuotes := cnt / 2])
  }

  lemma PairHasNoQuote(s: string, open: bool)
    ensures forall i :: 0 <= i < |s| ==> !IsQuote(Pair(s, open)[i])
  {
  }

  /** The fix-up after the loop: with an odd number of quotes, a final «
      is turned into ». */
  function FixLast(p: string, odd: bool): (r: string)
    ensures |r| == |p|
    ensures forall i :: 0 <= i < |p| - 1 ==> r[i] == p[i]
    ensures |p| > 0 ==> r[|p| - 1] == if odd && p[|p| - 1] == OPEN_QUOTE then CLOSE_QUOTE else p[|p| - 1]
    ensures CountIf(r, IsGuillemet) == CountIf(p, IsGuillemet)
    ensures (forall i :: 0 <= i < |p| ==> !IsQuote(p[i])) ==> forall i :: 0 <= i < |r| ==> !IsQuote(r[i])
  {
    if odd && |p| > 0 && p[|p| - 1] == OPEN_QUOTE then FlipLast(p) else p
  }

  /** The fix-up `result[-1] = "»"`. */
  function FlipLast(p: string): (r: string)
    requires |p| > 0 && p[|p| - 1] == OPEN_QUOTE
    ensures |r| == |p|
    ensures r[|p| - 1] == CLOSE_QUOTE
    ensures forall i :: 0 <= i < |p| - 1 ==> r[i] == p[i]
    ensures CountIf(r, IsGuillemet) == CountIf(p, IsGuillemet)
    ensures Occ(r, OPEN_QUOTE) + 1 == Occ(p, OPEN_QUOTE)
    ensures Occ(r, CLOSE_QUOTE) == Occ(p, CLOSE_QUOTE) + 1
  {
    var init := p[..|p| - 1];
    assert p == init + [OPEN_QUOTE];
    CountIfAppend(init, [OPEN_QUOTE], IsGuillemet);
    CountIfAppend(init, [CLOSE_QUOTE], IsGuillemet);
    OccAppend(init, [OPEN_QUOTE], OPEN_QUOTE);
    OccAppend(init, [CLOSE_QUOTE], OPEN_QUOTE);
    OccAppend(init, [OPEN_QUOTE], CLOSE_QUOTE);
    OccAppend(init, [CLOSE_QUOTE], CLOSE_QUOTE);
    init + [CLOSE_QUOTE]
  }

  /** Every quote becomes a guillemet and nothing else does. */
  lemma {:induction false} PairGuillemets(s: string, open: bool)
    ensures CountIf(Pair(s, open), IsGuillemet) == CountIf(s, IsGuillemet) + CountIf(s, IsQuote)
    decreases |s|
  {
    if |s| > 0 {
      var open' := if IsQuote(s[0]) then !open else open;
      PairGuillemets(s[1..], open');
      assert Pair(s, open)[1..] == Pair(s[1..], open');
    }
  }

  /** How many of each guillemet the fold produces: starting open, the
      opening marks get the extra one when the quotes are odd in number. */
  lemma PairOpenClose(s: string, open: bool)
    ensures var q := CountIf(s, IsQuote);
      Occ(Pair(s, open), OPEN_QUOTE) == Occ(s, OPEN_QUOTE) + (if open then (q + 1) / 2 else q / 2)
    ensures var q := CountIf(s, IsQuote);
      Occ(Pair(s, open), CLOSE_QUOTE) == Occ(s, CLOSE_QUOTE) + (if open then q / 2 else (q + 1) / 2)
  {
    PairGlyphs(s, open, true);
    PairGlyphs(s, open, false);
  }

  /** The guillemet of state `g` is added once per quote read in state `g`. */
  lemma {:induction false} PairGlyphs(s: string, open: bool, g: bool)
    ensures var q := CountIf(s, IsQuote);
      Occ(Pair(s, open), Glyph(g)) == Occ(s, Glyph(g)) + (if open == g then (q + 1) / 2 else q / 2)
    decreases |s|
  {
    if |s| > 0 {
      var open' := Next(s[0], open);
      PairGlyphs(s[1..], open', g);
      var r := Pair(s, open);
      assert r[0] == (if IsQuote(s[0]) then Glyph(open) else s[0]) && r[1..] == Pair(s[1..], open');
    }
  }

  /** With an even number of quotes, fix_quotes adds exactly as many « as »,
      half the quotes each; so a text whose guillemets were balanced stays
      balanced. */
  lemma EvenQuotesBalance(t: string)
    requires CountIf(t, IsQuote) % 2 == 0
    ensures var r := FixQuotes(t).text; var q := CountIf(t, IsQuote);
      Occ(r, OPEN_QUOTE) == Occ(t, OPEN_QUOTE) + q / 2 && Occ(r, CLOSE_QUOTE) == Occ(t, CLOSE_QUOTE) + q / 2
  {
    PairOpenClose(t, true);
    if !HasQuote(t) {
      CountIfAbsent(t, IsQuote);
    }
  }

  /** With an odd number of quotes whose fold ends in «, the fix-up turns
      that last « round: one » more than « is added. */
  lemma OddQuotesTrailingFix(t: string)
    requires CountIf(t, IsQuote) % 2 == 1
    requires |t| > 0 && Pair(t, true)[|t| - 1] == OPEN_QUOTE
    ensures var r := FixQuotes(t).text; var q := CountIf(t, IsQuote);
      Occ(r, OPEN_QUOTE) == Occ(t, OPEN_QUOTE) + q / 2 && Occ(r, CLOSE_QUOTE) == Occ(t, CLOSE_QUOTE) + q / 2 + 1
  {
    PairOpenClose(t, true);
    if !HasQuote(t) {
      CountIfAbsent(t, IsQuote);
    }
  }

  /** Between two quotes with no quote in between, exactly one more
      quote precedes the second. */
  lemma NextQuoteBefore(t: string, i: nat, j: nat)
    requires i < j <= |t| && IsQuote(t[i])
    requires forall k :: i < k < j ==> !IsQuote(t[k])
    ensures QuotesBefore(t, j) == QuotesBefore(t, i) + 1
  {
    var mid := t[i + 1..j];
    assert t[..j] == t[..i] + [t[i]] + mid;
    CountIfAppend(t[..i] + [t[i]], mid, IsQuote);
    CountIfAppend(t[..i], [t[i]], IsQuote);
    forall k | 0 <= k < |mid| ensures !IsQuote(mid[k]) {
      assert mid[k] == t[i + 1 + k];
    }
    CountIfAbsent(mid, IsQuote);
  }

  lemma FixQuotesMark(t: string, i: nat)
    requires i < |t| && IsQuote(t[i])
    requires i < |t| - 1 || CountIf(t, IsQuote) % 2 == 0
    ensures FixQuotes(t).text[i] == Mark(t, i, true)
  {
  }

  /** With an even number of quotes the marks strictly alternate: two
      quotes with none between them get different guillemets, and the
      first quote of the text gets «. */
  lemma EvenQuotesAlternate(t: string, i: nat, j: nat)
    requires CountIf(t, IsQuote) % 2 == 0
    requires i < j < |t| && IsQuote(t[i]) && IsQuote(t[j])
    requires forall k :: i < k < j ==> !IsQuote(t[k])
    ensures FixQuotes(t).text[i] != FixQuotes(t).text[j]
    ensures QuotesBefore(t, i) == 0 ==> FixQuotes(t).text[i] == OPEN_QUOTE
  {
    NextQuoteBefore(t, i, j);
    FixQuotesMark(t, i);
    FixQuotesMark(t, j);
    MarkFlips(t, i, j);
  }

  lemma MarkFlips(t: string, i: nat, j: nat)
    requires i <= |t| && j <= |t|
    requires QuotesBefore(t, j) == QuotesBefore(t, i) + 1
    ensures Mark(t, i, true) != Mark(t, j, true)
    ensures QuotesBefore(t, i) == 0 ==> Mark(t, i, true) == OPEN_QUOTE
  {
    var q := QuotesBefore(t, i);
    assert (q % 2 == 0) != ((q + 1) % 2 == 0);
  }
}
