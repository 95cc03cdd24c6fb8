/** The one-for-one character rules: fix_k_y, the two digit translators
    behind fix_numbers_en_func / fix_numbers_ar_func, and
    fix_fake_hyphens_with_zwnj (PAKNEVIS.py:24-28, 186-205, 356-373). */
module Substitution {
  import opened Chars
  import opened Counters
  import opened Text

  /** fix_k_y: every Arabic kaf becomes the Persian kaf and then every
      Arabic yeh becomes the Persian yeh; each counter grows by the number
      of letters of its kind that were rewritten. */
  function FixKY(t: string): (r: Rewrite)
    ensures |r.text| == |t|
    ensures forall i :: 0 <= i < |r.text| ==> !IsArabicKaf(r.text[i]) && !IsArabicYeh(r.text[i])
    ensures forall i :: 0 <= i < |t| && IsArabicKaf(t[i]) ==> r.text[i] == PERSIAN_KAF
    ensures forall i :: 0 <= i < |t| && IsArabicYeh(t[i]) ==> r.text[i] == PERSIAN_YEH
    ensures forall i :: 0 <= i < |t| && !IsArabicKaf(t[i]) && !IsArabicYeh(t[i]) ==> r.text[i] == t[i]
    ensures Get(r.delta, ArabicKaf) == Changed(t, r.text, IsArabicKaf)
    ensures Get(r.delta, ArabicYeh) == Changed(t, r.text, IsArabicYeh)
    ensures Within(r.delta, {ArabicKaf, ArabicYeh})
  {
    var nk := Occ(t, ARABIC_KAF);
    var t1 := Replace(t, ARABIC_KAF, PERSIAN_KAF);
    var ny := Occ(t1, ARABIC_YEH);
    var t2 := Replace(t1, ARABIC_YEH, PERSIAN_YEH);
    OccReplace(t, ARABIC_KAF, PERSIAN_KAF, ARABIC_YEH);
    OccIsCountIf(t, ARABIC_KAF, IsArabicKaf);
    OccIsCountIf(t, ARABIC_YEH, IsArabicYeh);
    ChangedAll(t, t2, IsArabicKaf);
    ChangedAll(t, t2, IsArabicYeh);
    Rewrite(t2, map[ArabicKaf := nk, ArabicYeh := ny])
  }

  /** A second pass of fix_k_y finds nothing left to do. */
  lemma FixKYIdempotent(t: string)
    ensures FixKY(FixKY(t).text).text == FixKY(t).text
    ensures Zero(FixKY(FixKY(t).text).delta)
  {
    var u := FixKY(t).text;
    OccAbsent(u, ARABIC_KAF);
    OccAbsent(Replace(u, ARABIC_KAF, PERSIAN_KAF), ARABIC_YEH);
    assert Replace(u, ARABIC_KAF, PERSIAN_KAF) == u;
    assert Replace(u, ARABIC_YEH, PERSIAN_YEH) == u;
  }

  /** The character table of en_numbers_to_fa: ASCII digit d becomes
      Persian digit d (U+06F0 + d); every other character is kept. */
  function EnDigitToFa(c: char): char {
    if IsEnDigit(c) then (c as int - '0' as int + 0x06F0) as char else c
  }

  /** The character table of ar_numbers_to_fa: Arabic-Indic digit d
      (U+0660 + d) becomes Persian digit d. */
  function ArDigitToFa(c: char): char {
    if IsArDigit(c) then (c as int - 0x0660 + 0x06F0) as char else c
  }

  /** en_numbers_to_fa: translates ASCII digits to Persian digits of the same value. */
  function EnNumbersToFa(s: string): (r: string)
    ensures |r| == |s|
    ensures forall i :: 0 <= i < |s| ==> !IsEnDigit(r[i])
    ensures forall i :: 0 <= i < |s| && IsEnDigit(s[i]) ==>
      IsFaDigit(r[i]) && r[i] as int - 0x06F0 == s[i] as int - '0' as int
    ensures forall i :: 0 <= i < |s| && !IsEnDigit(s[i]) ==> r[i] == s[i]
  {
    MapChars(s, EnDigitToFa)
  }

  /** ar_numbers_to_fa: translates Arabic-Indic digits to Persian digits of the same value. */
  function ArNumbersToFa(s: string): (r: string)
    ensures |r| == |s|
    ensures forall i :: 0 <= i < |s| ==> !IsArDigit(r[i])
    ensures forall i :: 0 <= i < |s| && IsArDigit(s[i]) ==>
      IsFaDigit(r[i]) && r[i] as int - 0x06F0 == s[i] as int - 0x0660
    ensures forall i :: 0 <= i < |s| && !IsArDigit(s[i]) ==> r[i] == s[i]
  {
    MapChars(s, ArDigitToFa)
  }

  /** fix_numbers_en_func: `re.subn("[0-9]", ...)` translates every ASCII
      digit and counts one match per digit. */
  function FixNumbersEn(t: string): (r: Rewrite)
    ensures |r.text| == |t|
    ensures forall i :: 0 <= i < |r.text| ==> !IsEnDigit(r.text[i])
    ensures forall i :: 0 <= i < |t| && IsEnDigit(t[i]) ==>
      IsFaDigit(r.text[i]) && r.text[i] as int - 0x06F0 == t[i] as int - '0' as int
    ensures forall i :: 0 <= i < |t| && !IsEnDigit(t[i]) ==> r.text[i] == t[i]
    ensures Get(r.delta, EnDigits) == Changed(t, r.text, IsEnDigit)
    ensures Within(r.delta, {EnDigits})
  {
    var u := EnNumbersToFa(t);
    ChangedAll(t, u, IsEnDigit);
    Rewrite(u, map[EnDigits := CountIf(t, IsEnDigit)])
  }

  /** fix_numbers_ar_func: the same for Arabic-Indic digits. */
  function FixNumbersAr(t: string): (r: Rewrite)
    ensures |r.text| == |t|
    ensures forall i :: 0 <= i < |r.text| ==> !IsArDigit(r.text[i])
    ensures forall i :: 0 <= i < |t| && IsArDigit(t[i]) ==>
      IsFaDigit(r.text[i]) && r.text[i] as int - 0x06F0 == t[i] as int - 0x0660
    ensures forall i :: 0 <= i < |t| && !IsArDigit(t[i]) ==> r.text[i] == t[i]
    ensures Get(r.delta, ArDigits) == Changed(t, r.text, IsArDigit)
    ensures Within(r.delta, {ArDigits})
  {
    var u := ArNumbersToFa(t);
    ChangedAll(t, u, IsArDigit);
    Rewrite(u, map[ArDigits := CountIf(t, IsArDigit)])
  }

  lemma FixNumbersEnIdempotent(t: string)
    ensures FixNumbersEn(FixNumbersEn(t).text).text == FixNumbersEn(t).text
    ensures Zero(FixNumbersEn(FixNumbersEn(t).text).delta)
  {
    var u := FixNumbersEn(t).text;
    CountIfAbsent(u, IsEnDigit);
    assert EnNumbersToFa(u) == u;
  }

  lemma FixNumbersArIdempotent(t: string)
    ensures FixNumbersAr(FixNumbersAr(t).text).text == FixNumbersAr(t).text
    ensures Zero(FixNumbersAr(FixNumbersAr(t).text).delta)
  {
    var u := FixNumbersAr(t).text;
    CountIfAbsent(u, IsArDigit);
    assert ArNumbersToFa(u) == u;
  }

  /** No character occurs twice in `cs`. */
  predicate Distinct(cs: seq<char>) {
    forall i, j :: 0 <= i < j < |cs| ==> cs[i] != cs[j]
  }

  lemma FakeCharsDistinct()
    ensures ZWNJ !in FAKE_CHARS
    ensures Distinct(FAKE_CHARS)
  {
  }

  /** The list and the predicate name the same seven characters. */
  lemma FakeCharsMembers(c: char)
    ensures IsFakeHyphen(c) <==> c in FAKE_CHARS
  {
  }

  /** Number of characters of `s` that occur in `cs`. */
  function OccAny(s: string, cs: seq<char>): nat {
    if |s| == 0 then 0 else (if s[0] in cs then 1 else 0) + OccAny(s[1..], cs)
  }

  lemma {:induction false} OccAnySplit(s: string, cs: seq<char>)
    requires |cs| > 0 && cs[0] !in cs[1..]
    ensures OccAny(s, cs) == Occ(s, cs[0]) + OccAny(s, cs[1..])
  {
    if |s| > 0 {
      OccAnySplit(s[1..], cs);
    }
  }

  lemma {:induction false} OccAnyReplace(s: string, a: char, b: char, cs: seq<char>)
    requires a !in cs && b !in cs
    ensures OccAny(Replace(s, a, b), cs) == OccAny(s, cs)
  {
    if |s| > 0 {
      assert Replace(s, a, b)[1..] == Replace(s[1..], a, b);
      OccAnyReplace(s[1..], a, b, cs);
    }
  }

  /** The loop of fix_fake_hyphens_with_zwnj: `str.replace` each character
      of `cs` in turn by `to`, adding up the `str.count`s. */
  function ReplaceEach(s: string, cs: seq<char>, to: char): (r: Subn)
    requires to !in cs
    requires Distinct(cs)
    ensures |r.text| == |s|
    ensures forall i :: 0 <= i < |s| ==> r.text[i] == (if s[i] in cs then to else s[i])
    ensures r.count == OccAny(s, cs)
    decreases |cs|
  {
    if |cs| == 0 then
      assert OccAny(s, cs) == 0 by { OccAnyNone(s, cs); }
      Subn(s, 0)
    else
      var t := Replace(s, cs[0], to);
      var rest := ReplaceEach(t, cs[1..], to);
      OccAnySplit(s, cs);
      OccAnyReplace(s, cs[0], to, cs[1..]);
      Subn(rest.text, Occ(s, cs[0]) + rest.count)
  }

  lemma {:induction false} OccAnyNone(s: string, cs: seq<char>)
    requires |cs| == 0
    ensures OccAny(s, cs) == 0
  {
    if |s| > 0 {
      OccAnyNone(s[1..], cs);
    }
  }

  lemma {:induction false} OccAnyIsCountIf(s: string, cs: seq<char>, p: char -> bool)
    requires forall c :: p(c) <==> c in cs
    ensures OccAny(s, cs) == CountIf(s, p)
  {
    if |s| > 0 {
      OccAnyIsCountIf(s[1..], cs, p);
    }
  }

  /** The character table of fix_fake_hyphens_with_zwnj. */
  function FakeToZwnj(c: char): char {
    if IsFakeHyphen(c) then ZWNJ else c
  }

  /** The source's loop of seven successive `str.replace` calls, with its
      summed `str.count`s, equals one simultaneous character map counting
      every invisible character once: ZWNJ is not among the seven, so no
      pass undoes or recounts another. */
  lemma FakeLoopIsMap(t: string)
    ensures ZWNJ !in FAKE_CHARS && Distinct(FAKE_CHARS)
    ensures ReplaceEach(t, FAKE_CHARS, ZWNJ) == Subn(MapChars(t, FakeToZwnj), CountIf(t, IsFakeHyphen))
  {
    FakeCharsDistinct();
    var sub := ReplaceEach(t, FAKE_CHARS, ZWNJ);
    forall i | 0 <= i < |t| ensures sub.text[i] == FakeToZwnj(t[i]) {
      FakeCharsMembers(t[i]);
    }
    forall c ensures IsFakeHyphen(c) <==> c in FAKE_CHARS {
      FakeCharsMembers(c);
    }
    OccAnyIsCountIf(t, FAKE_CHARS, IsFakeHyphen);
  }

  /** fix_fake_hyphens_with_zwnj: each of the seven invisible characters
      becomes ZWNJ; one counter grows by the number of characters rewritten. */
  function FixFakeHyphens(t: string): (r: Rewrite)
    ensures |r.text| == |t|
    ensures forall i :: 0 <= i < |r.text| ==> !IsFakeHyphen(r.text[i])
    ensures forall i :: 0 <= i < |t| && IsFakeHyphen(t[i]) ==> r.text[i] == ZWNJ
    ensures forall i :: 0 <= i < |t| && !IsFakeHyphen(t[i]) ==> r.text[i] == t[i]
    ensures Get(r.delta, FakeZwnj) == Changed(t, r.text, IsFakeHyphen)
    ensures Within(r.delta, {FakeZwnj})
  {
    var u := MapChars(t, FakeToZwnj);
    ChangedAll(t, u, IsFakeHyphen);
    Rewrite(u, map[FakeZwnj := CountIf(t, IsFakeHyphen)])
  }

  lemma FixFakeHyphensIdempotent(t: string)
    ensures FixFakeHyphens(FixFakeHyphens(t).text).text == FixFakeHyphens(t).text
    ensures Zero(FixFakeHyphens(FixFakeHyphens(t).text).delta)
  {
    var u := FixFakeHyphens(t).text;
    CountIfAbsent(u, IsFakeHyphen);
    assert MapChars(u, FakeToZwnj) == u;
  }
}
