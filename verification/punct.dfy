/** fix_punct and fix_ellipsis (PAKNEVIS.py:207-221, 349-354): ASCII
    punctuation becomes its Persian glyph, runs of question and exclamation
    marks collapse to one mark, and runs of three or more dots become an
    ellipsis. */
module Punctuation {
  import opened Chars
  import opened Counters
  import opened Text
  import opened Runs

  /** The table of fix_punct: `, ; ? $ %` to `، ؛ ؟ ﷼ ٪`; everything else is kept. */
  function PunctGlyph(c: char): char {
    if c == ',' then FA_COMMA
    else if c == ';' then FA_SEMICOLON
    else if c == '?' then FA_QUESTION
    else if c == '$' then RIAL_SIGN
    else if c == '%' then FA_PERCENT
    else c
  }

  /** What the replacement loop of fix_punct produces: the text and the
      `str.count` taken just before each of the five replacements. */
  datatype Replaced = Replaced(text: string, comma: nat, semicolon: nat, question: nat, dollar: nat, percent: nat)

  /** The five `str.replace` calls of fix_punct, in the table's order. */
  function ReplacePunct(t: string): (r: Replaced) {
    var n1 := Occ(t, ',');
    var t1 := Replace(t, ',', FA_COMMA);
    var n2 := Occ(t1, ';');
    var t2 := Replace(t1, ';', FA_SEMICOLON);
    var n3 := Occ(t2, '?');
    var t3 := Replace(t2, '?', FA_QUESTION);
    var n4 := Occ(t3, '$');
    var t4 := Replace(t3, '$', RIAL_SIGN);
    var n5 := Occ(t4, '%');
    Replaced(Replace(t4, '%', FA_PERCENT), n1, n2, n3, n4, n5)
  }

  /** The five successive replacements act as one character map, and each
      count is the number of that character in the original text: no
      target glyph is one of the ASCII sources, so no pass sees another's
      output. */
  lemma ReplacePunctIsMap(t: string)
    ensures ReplacePunct(t).text == MapChars(t, PunctGlyph)
    ensures ReplacePunct(t).comma == Occ(t, ',')
    ensures ReplacePunct(t).semicolon == Occ(t, ';')
    ensures ReplacePunct(t).question == Occ(t, '?')
    ensures ReplacePunct(t).dollar == Occ(t, '$')
    ensures ReplacePunct(t).percent == Occ(t, '%')
  {
    var t1 := Replace(t, ',', FA_COMMA);
    var t2 := Replace(t1, ';', FA_SEMICOLON);
    var t3 := Replace(t2, '?', FA_QUESTION);
    var t4 := Replace(t3, '$', RIAL_SIGN);
    OccReplace(t, ',', FA_COMMA, ';');
    OccReplace(t, ',', FA_COMMA, '?');
    OccReplace(t1, ';', FA_SEMICOLON, '?');
    OccReplace(t, ',', FA_COMMA, '$');
    OccReplace(t1, ';', FA_SEMICOLON, '$');
    OccReplace(t2, '?', FA_QUESTION, '$');
    OccReplace(t, ',', FA_COMMA, '%');
    OccReplace(t1, ';', FA_SEMICOLON, '%');
    OccReplace(t2, '?', FA_QUESTION, '%');
    OccReplace(t3, '$', RIAL_SIGN, '%');
  }

  /** fix_punct. Four of the five replacements are counted; `$` is
      rewritten to the rial sign but has no counter. Then `؟{2,}` and
      `!{2,}` are collapsed, each counted once per run. */
  function FixPunct(t: string): (r: Rewrite)
    ensures forall i :: 0 <= i < |r.text| ==> !IsEnPunct(r.text[i])
    ensures NoDouble(r.text, FA_QUESTION) && NoDouble(r.text, '!')
    ensures |r.text| <= |t|
    ensures Erase(r.text, FA_QUESTION, '!') == Erase(MapChars(t, PunctGlyph), FA_QUESTION, '!')
    ensures Get(r.delta, EnComma) == Occ(t, ',')
    ensures Get(r.delta, EnSemicolon) == Occ(t, ';')
    ensures Get(r.delta, EnQuestion) == Occ(t, '?')
    ensures Get(r.delta, EnPercent) == Occ(t, '%')
    ensures Get(r.delta, RepeatedQuestion) == LongRuns(MapChars(t, PunctGlyph), FA_QUESTION, 2, false)
    ensures Get(r.delta, RepeatedExclamation) == LongRuns(t, '!', 2, false)
    ensures Within(r.delta, {EnComma, EnSemicolon, EnQuestion, EnPercent, RepeatedQuestion, RepeatedExclamation})
  {
    var rp := ReplacePunct(t);
    var m := rp.text;
    ReplacePunctIsMap(t);
    var q := Collapse(m, FA_QUESTION, 2, FA_QUESTION);
    var e := Collapse(q.text, '!', 2, '!');
    PunctRunCounts(t, m, q, e);
    PunctNoDoubles(m, q, e);
    PunctErase(m, q, e);
    PunctNoAscii(t, m, e.text);
    Rewrite(e.text, PunctDelta(rp.comma, rp.semicolon, rp.question, rp.percent, q.count, e.count))
  }

  /** The six report lines fix_punct adds to; `$` has none. */
  function PunctDelta(comma: nat, semicolon: nat, question: nat, percent: nat, repQ: nat, repE: nat): (d: Counters)
    ensures Get(d, EnComma) == comma && Get(d, EnSemicolon) == semicolon
    ensures Get(d, EnQuestion) == question && Get(d, EnPercent) == percent
    ensures Get(d, RepeatedQuestion) == repQ && Get(d, RepeatedExclamation) == repE
    ensures Within(d, {EnComma, EnSemicolon, EnQuestion, EnPercent, RepeatedQuestion, RepeatedExclamation})
  {
    map[EnComma := comma, EnSemicolon := semicolon, EnQuestion := question, EnPercent := percent,
        RepeatedQuestion := repQ, RepeatedExclamation := repE]
  }

  lemma PunctRunCounts(t: string, m: string, q: Subn, e: Subn)
    requires m == MapChars(t, PunctGlyph)
    requires q == Collapse(m, FA_QUESTION, 2, FA_QUESTION)
    requires e == Collapse(q.text, '!', 2, '!')
    ensures q.count == LongRuns(m, FA_QUESTION, 2, false)
    ensures e.count == LongRuns(t, '!', 2, false)
  {
    CollapseCountsRuns(m, FA_QUESTION, 2, FA_QUESTION);
    CollapseCountsRuns(q.text, '!', 2, '!');
    LongRunsCollapse(m, FA_QUESTION, 2, FA_QUESTION, '!', 2, false);
    LongRunsMapKeeps(t, false);
  }

  lemma PunctNoDoubles(m: string, q: Subn, e: Subn)
    requires q == Collapse(m, FA_QUESTION, 2, FA_QUESTION)
    requires e == Collapse(q.text, '!', 2, '!')
    ensures NoDouble(e.text, FA_QUESTION) && NoDouble(e.text, '!')
  {
    CollapseLeavesNoRun(q.text, '!', 2, '!');
    PairRunsIffDouble(e.text, '!', '!');
    CollapseLeavesNoRun(m, FA_QUESTION, 2, FA_QUESTION);
    CollapseCountsRuns(q.text, FA_QUESTION, 2, FA_QUESTION);
    LongRunsCollapse(q.text, '!', 2, '!', FA_QUESTION, 2, false);
    CollapseCountsRuns(e.text, FA_QUESTION, 2, FA_QUESTION);
    PairRunsIffDouble(e.text, FA_QUESTION, FA_QUESTION);
  }

  lemma PunctErase(m: string, q: Subn, e: Subn)
    requires q == Collapse(m, FA_QUESTION, 2, FA_QUESTION)
    requires e == Collapse(q.text, '!', 2, '!')
    ensures Erase(e.text, FA_QUESTION, '!') == Erase(m, FA_QUESTION, '!')
  {
    CollapseErase(m, FA_QUESTION, 2, FA_QUESTION);
    CollapseErase(q.text, '!', 2, '!');
    EraseSymmetric(e.text, FA_QUESTION, '!');
    EraseTwice(e.text, '!', FA_QUESTION);
    EraseTwice(q.text, '!', FA_QUESTION);
    EraseSymmetric(q.text, FA_QUESTION, '!');
    EraseTwice(q.text, FA_QUESTION, '!');
    EraseTwice(m, FA_QUESTION, '!');
  }

  lemma PunctNoAscii(t: string, m: string, out: string)
    requires m == MapChars(t, PunctGlyph)
    requires Erase(out, FA_QUESTION, '!') == Erase(m, FA_QUESTION, '!')
    ensures forall i :: 0 <= i < |out| ==> !IsEnPunct(out[i])
  {
    forall i | 0 <= i < |out| ensures !IsEnPunct(out[i]) {
      var ch := out[i];
      if IsEnPunct(ch) {
        NoAsciiInMapped(t, ch);
        EraseMembers(out, FA_QUESTION, '!', ch);
        EraseMembers(m, FA_QUESTION, '!', ch);
        assert false;
      }
    }
  }

  /** The table's image holds no ASCII punctuation. */
  lemma NoAsciiInMapped(t: string, ch: char)
    requires IsEnPunct(ch)
    ensures ch !in MapChars(t, PunctGlyph)
  {
  }

  /** The punctuation table never produces or removes `!`, so the runs of
      `!` are those of the original text. */
  lemma {:induction false} LongRunsMapKeeps(t: string, p: bool)
    ensures LongRuns(MapChars(t, PunctGlyph), '!', 2, p) == LongRuns(t, '!', 2, p)
  {
    if |t| > 0 {
      LongRunsMapKeeps(t[1..], t[0] == '!');
      assert MapChars(t, PunctGlyph)[1..] == MapChars(t[1..], PunctGlyph);
      RunLenMapKeeps(t);
    }
  }

  lemma {:induction false} RunLenMapKeeps(t: string)
    ensures RunLen(MapChars(t, PunctGlyph), '!') == RunLen(t, '!')
  {
    if |t| > 0 {
      RunLenMapKeeps(t[1..]);
      assert MapChars(t, PunctGlyph)[1..] == MapChars(t[1..], PunctGlyph);
    }
  }

  /** A second fix_punct changes neither the text nor any counter. */
  lemma FixPunctIdempotent(t: string)
    ensures FixPunct(FixPunct(t).text).text == FixPunct(t).text
    ensures Zero(FixPunct(FixPunct(t).text).delta)
  {
    PunctFixedText(FixPunct(t).text);
  }

  /** Text without ASCII punctuation and without doubled marks is left
      alone by every step of fix_punct, and nothing is counted. */
  lemma PunctFixedText(t: string)
    requires forall i :: 0 <= i < |t| ==> !IsEnPunct(t[i])
    requires NoDouble(t, FA_QUESTION) && NoDouble(t, '!')
    ensures ReplacePunct(t) == Replaced(t, 0, 0, 0, 0, 0)
    ensures Collapse(t, FA_QUESTION, 2, FA_QUESTION) == Subn(t, 0)
    ensures Collapse(t, '!', 2, '!') == Subn(t, 0)
  {
    ReplacePunctIsMap(t);
    assert MapChars(t, PunctGlyph) == t;
    OccAbsent(t, ',');
    OccAbsent(t, ';');
    OccAbsent(t, '?');
    OccAbsent(t, '$');
    OccAbsent(t, '%');
    PairRunsIffDouble(t, FA_QUESTION, FA_QUESTION);
    PairRunsIffDouble(t, '!', '!');
  }

  /** The text of fix_punct as the character map followed by the two collapses. */
  lemma FixPunctText(t: string)
    ensures FixPunct(t).text ==
      Collapse(Collapse(MapChars(t, PunctGlyph), FA_QUESTION, 2, FA_QUESTION).text, '!', 2, '!').text
  {
    ReplacePunctIsMap(t);
  }

  /** The punctuation table maps each character on its own. */
  lemma MapGlyphAppend(a: string, b: string)
    ensures MapChars(a + b, PunctGlyph) == MapChars(a, PunctGlyph) + MapChars(b, PunctGlyph)
  {
    var l, r := MapChars(a + b, PunctGlyph), MapChars(a, PunctGlyph) + MapChars(b, PunctGlyph);
    forall i | 0 <= i < |l| ensures l[i] == r[i] {
      if i < |a| {
        assert (a + b)[i] == a[i];
      } else {
        assert (a + b)[i] == b[i - |a|];
      }
    }
  }

  /** A run of question marks, ASCII or Persian in any mix, between
      characters that are neither becomes exactly one `؟`, a lone mark
      included, while the text on either side is rewritten on its own. */
  lemma QuestionRunToOne(x: string, d: string, y: string)
    requires |d| >= 1 && forall i :: 0 <= i < |d| ==> d[i] == '?' || d[i] == FA_QUESTION
    requires |x| == 0 || PunctGlyph(x[|x| - 1]) != FA_QUESTION
    requires |y| == 0 || PunctGlyph(y[0]) != FA_QUESTION
    ensures FixPunct(x + d + y).text == FixPunct(x).text + [FA_QUESTION] + FixPunct(y).text
  {
    var mx, md, my := MapChars(x, PunctGlyph), MapChars(d, PunctGlyph), MapChars(y, PunctGlyph);
    MapGlyphAppend(x + d, y);
    MapGlyphAppend(x, d);
    RunBecomesOne(mx, md, my, FA_QUESTION);
    var qx, qy := Collapse(mx, FA_QUESTION, 2, FA_QUESTION).text, Collapse(my, FA_QUESTION, 2, FA_QUESTION).text;
    OtherPassesBy(qx, [FA_QUESTION], qy, '!', 2, '!');
    FixPunctText(x + d + y);
    FixPunctText(x);
    FixPunctText(y);
  }

  /** A run of `!` between other characters becomes exactly one `!`, a
      lone `!` included, while the text on either side is rewritten on
      its own. */
  lemma ExclamationRunToOne(x: string, d: string, y: string)
    requires |d| >= 1 && forall i :: 0 <= i < |d| ==> d[i] == '!'
    requires |x| == 0 || x[|x| - 1] != '!'
    requires |y| == 0 || y[0] != '!'
    ensures FixPunct(x + d + y).text == FixPunct(x).text + ['!'] + FixPunct(y).text
  {
    var mx, md, my := MapChars(x, PunctGlyph), MapChars(d, PunctGlyph), MapChars(y, PunctGlyph);
    MapGlyphAppend(x + d, y);
    MapGlyphAppend(x, d);
    assert md == d;
    BangRunCollapses(mx, d, my);
    FixPunctText(x + d + y);
    FixPunctText(x);
    FixPunctText(y);
  }

  /** The two collapses of fix_punct on a mapped text with a run of `!`
      in the middle: the first passes the run by, the second makes it one. */
  lemma BangRunCollapses(mx: string, d: string, my: string)
    requires |d| >= 1 && forall i :: 0 <= i < |d| ==> d[i] == '!'
    requires |mx| == 0 || mx[|mx| - 1] != '!'
    requires |my| == 0 || my[0] != '!'
    ensures var q, qx, qy := Collapse(mx + d + my, FA_QUESTION, 2, FA_QUESTION).text,
        Collapse(mx, FA_QUESTION, 2, FA_QUESTION).text, Collapse(my, FA_QUESTION, 2, FA_QUESTION).text;
      Collapse(q, '!', 2, '!').text == Collapse(qx, '!', 2, '!').text + ['!'] + Collapse(qy, '!', 2, '!').text
  {
    OtherPassesBy(mx, d, my, FA_QUESTION, 2, FA_QUESTION);
    var qx, qy := Collapse(mx, FA_QUESTION, 2, FA_QUESTION).text, Collapse(my, FA_QUESTION, 2, FA_QUESTION).text;
    if |mx| > 0 {
      CollapseLast(mx, FA_QUESTION, 2, FA_QUESTION, '!');
    }
    RunBecomesOne(qx, d, qy, '!');
  }
  /** fix_ellipsis: `\.{3,}` becomes one ellipsis per run, counted once per run. */
  function FixEllipsis(t: string): (r: Rewrite)
    ensures NoTriple(r.text, '.')
    ensures Erase(r.text, '.', ELLIPSIS) == Erase(t, '.', ELLIPSIS)
    ensures Get(r.delta, Ellipsis) == LongRuns(t, '.', 3, false)
    ensures Within(r.delta, {Ellipsis})
    ensures r.text == t && Zero(r.delta) <==> NoTriple(t, '.')
  {
    var q := Collapse(t, '.', 3, ELLIPSIS);
    CollapseLeavesNoRun(t, '.', 3, ELLIPSIS);
    TripleRunsIffTriple(q.text, '.', ELLIPSIS);
    CollapseErase(t, '.', 3, ELLIPSIS);
    CollapseCountsRuns(t, '.', 3, ELLIPSIS);
    TripleRunsIffTriple(t, '.', ELLIPSIS);
    Rewrite(q.text, map[Ellipsis := q.count])
  }

  /** A run of one or two dots, cut off on both sides by other characters,
      passes through fix_ellipsis untouched while the text on either side
      is rewritten on its own. */
  lemma ShortDotsUntouched(x: string, d: string, y: string)
    requires |x| == 0 || x[|x| - 1] != '.'
    requires 1 <= |d| <= 2 && forall i :: 0 <= i < |d| ==> d[i] == '.'
    requires |y| == 0 || y[0] != '.'
    ensures FixEllipsis(x + d + y).text ==
      FixEllipsis(x).text + d + FixEllipsis(y).text
  {
    assert x + d + y == x + (d + y);
    CollapseAppend(x, d + y, '.', 3, ELLIPSIS);
    ShortRunKept(d, y, '.', 3, ELLIPSIS);
    var a, b := Collapse(x, '.', 3, ELLIPSIS).text, Collapse(y, '.', 3, ELLIPSIS).text;
    AppendAssoc(a, d, b);
  }

  /** A run of three or more dots, cut off on both sides by other
      characters, becomes exactly one ellipsis and is counted once, while
      the text on either side is rewritten on its own. */
  lemma LongDotsBecomeEllipsis(x: string, d: string, y: string)
    requires |x| == 0 || x[|x| - 1] != '.'
    requires |d| >= 3 && forall i :: 0 <= i < |d| ==> d[i] == '.'
    requires |y| == 0 || y[0] != '.'
    ensures FixEllipsis(x + d + y).text ==
      FixEllipsis(x).text + [ELLIPSIS] + FixEllipsis(y).text
    ensures Get(FixEllipsis(x + d + y).delta, Ellipsis) ==
      Get(FixEllipsis(x).delta, Ellipsis) + 1 + Get(FixEllipsis(y).delta, Ellipsis)
  {
    assert x + d + y == x + (d + y);
    CollapseAppend(x, d + y, '.', 3, ELLIPSIS);
    LongRunCollapsed(d, y, '.', 3, ELLIPSIS);
    var a, b := Collapse(x, '.', 3, ELLIPSIS).text, Collapse(y, '.', 3, ELLIPSIS).text;
    AppendAssoc(a, [ELLIPSIS], b);
  }
}
