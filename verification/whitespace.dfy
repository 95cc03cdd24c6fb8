/** The whitespace rules fix_spaces, fix_space_before_punct and
    fix_extra_spaces (PAKNEVIS.py:306-347). Each scans the text left to
    right as `re.subn` does and deletes whitespace next to brackets or
    punctuation; `\s` is Python's whitespace class (`Chars.IsSpace`). */
module Whitespace {
  import opened Chars
  import opened Counters
  import opened Text
  import opened Runs

  /** No whitespace directly follows a character of class `o`. */
  predicate NoSpaceAfter(s: string, o: char -> bool) {
    forall i :: 0 <= i < |s| - 1 && o(s[i]) ==> !IsSpace(s[i + 1])
  }

  /** No whitespace directly precedes a character of class `q`. */
  predicate NoSpaceBefore(s: string, q: char -> bool) {
    forall i :: 0 < i < |s| && q(s[i]) ==> !IsSpace(s[i - 1])
  }

  /** A class that holds no whitespace character. */
  predicate NonSpaceClass(p: char -> bool) {
    forall c :: p(c) ==> !IsSpace(c)
  }

  /** Number of neighbouring pairs whose first character is of class `a`
      and whose second is of class `b`. */
  function Pairs(s: string, a: char -> bool, b: char -> bool): nat {
    if |s| < 2 then 0 else (if a(s[0]) && b(s[1]) then 1 else 0) + Pairs(s[1..], a, b)
  }

  // ----- "only whitespace was deleted", piece by piece -----

  lemma KeptHead(s: string, rest: string)
    requires |s| > 0 && OnlySpacesDeleted(s[1..], rest)
    ensures OnlySpacesDeleted(s, [s[0]] + rest)
  {
    var r := [s[0]] + rest;
    assert r[0] == s[0] && r[1..] == rest;
    NonSpaceAppend([s[0]], rest);
    NonSpaceAppend([s[0]], s[1..]);
    assert s == [s[0]] + s[1..];
  }

  lemma DroppedRun(s: string, n: nat, rest: string)
    requires n <= |s| && forall i :: 0 <= i < n ==> IsSpace(s[i])
    requires OnlySpacesDeleted(s[n..], rest)
    ensures OnlySpacesDeleted(s, rest)
  {
    SubseqSuffix(rest, s, n);
    NonSpaceSkip(s, n);
  }

  lemma {:induction false} SubseqPrefix(x: string, a: string, b: string)
    requires IsSubseq(a, b)
    ensures IsSubseq(x + a, x + b)
  {
    if |x| > 0 {
      SubseqPrefix(x[1..], a, b);
      assert (x + a)[0] == x[0] && (x + a)[1..] == x[1..] + a;
      assert (x + b)[0] == x[0] && (x + b)[1..] == x[1..] + b;
    } else {
      assert x + a == a && x + b == b;
    }
  }

  lemma KeptRun(s: string, n: nat, rest: string)
    requires n <= |s| && OnlySpacesDeleted(s[n..], rest)
    ensures OnlySpacesDeleted(s, s[..n] + rest)
  {
    assert s == s[..n] + s[n..];
    SubseqPrefix(s[..n], rest, s[n..]);
    NonSpaceAppend(s[..n], rest);
    NonSpaceAppend(s[..n], s[n..]);
  }

  // ----- the two deletion scanners -----

  /** `re.subn(r"(?<=o)\s+", "", s)` on the part `s` of the text still to
      be scanned; `prev` says whether the character just before `s` in the
      ORIGINAL text is of class `o` (the lookbehind reads the text being
      scanned, not the rewritten one). Each whitespace run right after an
      `o` is one match. */
  function DropAfter(s: string, o: char -> bool, prev: bool): (r: Subn)
    ensures OnlySpacesDeleted(s, r.text)
    ensures NoSpaceAfter(r.text, o)
    ensures prev && |r.text| > 0 ==> !IsSpace(r.text[0])
    ensures !prev && |s| > 0 ==> |r.text| > 0 && r.text[0] == s[0]
    ensures r.count + |r.text| <= |s|
    ensures r.count == 0 ==> r.text == s
    decreases |s|
  {
    if |s| == 0 then Subn([], 0)
    else if prev && IsSpace(s[0]) then
      var n := SpaceRun(s);
      var rest := DropAfter(s[n..], o, false);
      DroppedRun(s, n, rest.text);
      Subn(rest.text, rest.count + 1)
    else
      var rest := DropAfter(s[1..], o, o(s[0]));
      KeptHead(s, rest.text);
      ConsNoSpaceAfter(s[0], rest.text, o);
      Subn([s[0]] + rest.text, rest.count)
  }

  /** `re.subn(r"\s+(?=q)", "", s)`, and equally `re.subn(r"\s+(q)", r"\1", s)`:
      each maximal whitespace run followed by a character of class `q` is
      one match and is deleted. A run followed by anything else is kept,
      since every shorter tail of it is followed by whitespace. */
  function DropBefore(s: string, q: char -> bool): (r: Subn)
    ensures OnlySpacesDeleted(s, r.text)
    ensures |s| > 0 && !IsSpace(s[0]) ==> |r.text| > 0 && r.text[0] == s[0]
    ensures r.count + |r.text| <= |s|
    ensures r.count == 0 ==> r.text == s
    decreases |s|
  {
    if |s| == 0 then Subn([], 0)
    else if IsSpace(s[0]) then
      var n := SpaceRun(s);
      var rest := DropBefore(s[n..], q);
      if n < |s| && q(s[n]) then
        DroppedRun(s, n, rest.text);
        Subn(rest.text, rest.count + 1)
      else
        KeptRun(s, n, rest.text);
        assert rest.count == 0 ==> s[..n] + rest.text == s;
        Subn(s[..n] + rest.text, rest.count)
    else
      var rest := DropBefore(s[1..], q);
      KeptHead(s, rest.text);
      Subn([s[0]] + rest.text, rest.count)
  }

  /** A last character that is not whitespace is never deleted. */
  lemma {:induction false} DropAfterLast(s: string, o: char -> bool, prev: bool)
    requires |s| > 0 && !IsSpace(s[|s| - 1])
    ensures var t := DropAfter(s, o, prev).text; |t| > 0 && t[|t| - 1] == s[|s| - 1]
    decreases |s|
  {
    if prev && IsSpace(s[0]) {
      var n := SpaceRun(s);
      LastOfSuffix(s, n);
      DropAfterLast(s[n..], o, false);
    } else if |s| > 1 {
      LastOfSuffix(s, 1);
      DropAfterLast(s[1..], o, o(s[0]));
    }
  }
  lemma LastOfSuffix(s: string, n: nat)
    requires n < |s|
    ensures s[n..][|s| - n - 1] == s[|s| - 1]
  {
  }
  lemma {:induction false} DropBeforeLast(s: string, q: char -> bool)
    requires |s| > 0 && !IsSpace(s[|s| - 1])
    ensures var t := DropBefore(s, q).text; |t| > 0 && t[|t| - 1] == s[|s| - 1]
    decreases |s|
  {
    if IsSpace(s[0]) {
      var n := SpaceRun(s);
      assert s[n..][|s| - n - 1] == s[|s| - 1];
      DropBeforeLast(s[n..], q);
    } else if |s| > 1 {
      assert s[1..][|s| - 2] == s[|s| - 1];
      DropBeforeLast(s[1..], q);
    }
  }

  lemma ConsNoSpaceAfter(h: char, rest: string, o: char -> bool)
    requires NoSpaceAfter(rest, o)
    requires o(h) && |rest| > 0 ==> !IsSpace(rest[0])
    ensures NoSpaceAfter([h] + rest, o)
  {
    var r := [h] + rest;
    forall i | 0 <= i < |r| - 1 && o(r[i]) ensures !IsSpace(r[i + 1]) {
      if i > 0 {
        assert r[i] == rest[i - 1] && r[i + 1] == rest[i];
      }
    }
  }

  lemma ConsNoSpaceBefore(h: char, rest: string, q: char -> bool)
    requires NoSpaceBefore(rest, q)
    requires |rest| > 0 && q(rest[0]) ==> !IsSpace(h)
    ensures NoSpaceBefore([h] + rest, q)
  {
    var r := [h] + rest;
    forall i | 0 < i < |r| && q(r[i]) ensures !IsSpace(r[i - 1]) {
      if i > 1 {
        assert r[i] == rest[i - 1] && r[i - 1] == rest[i - 2];
      }
    }
  }

  /** A run of whitespace in front of text that is already clean. */
  lemma SpacesNoSpaceAfter(x: string, rest: string, o: char -> bool)
    requires NonSpaceClass(o) && NoSpaceAfter(rest, o)
    requires forall i :: 0 <= i < |x| ==> IsSpace(x[i])
    ensures NoSpaceAfter(x + rest, o)
  {
    var r := x + rest;
    forall i | 0 <= i < |r| - 1 && o(r[i]) ensures !IsSpace(r[i + 1]) {
      if i >= |x| {
        assert r[i] == rest[i - |x|] && r[i + 1] == rest[i - |x| + 1];
      }
    }
  }

  lemma SpacesNoSpaceBefore(x: string, rest: string, q: char -> bool)
    requires NonSpaceClass(q) && NoSpaceBefore(rest, q)
    requires forall i :: 0 <= i < |x| ==> IsSpace(x[i])
    requires |x| > 0 && |rest| > 0 ==> !q(rest[0])
    ensures NoSpaceBefore(x + rest, q)
  {
    var r := x + rest;
    forall i | 0 < i < |r| && q(r[i]) ensures !IsSpace(r[i - 1]) {
      if i > |x| {
        assert r[i] == rest[i - |x|] && r[i - 1] == rest[i - |x| - 1];
      }
    }
  }

  lemma NoSpaceAfterSuffix(s: string, k: nat, o: char -> bool)
    requires k <= |s| && NoSpaceAfter(s, o)
    ensures NoSpaceAfter(s[k..], o)
  {
    var t := s[k..];
    forall i | 0 <= i < |t| - 1 && o(t[i]) ensures !IsSpace(t[i + 1]) {
      assert t[i] == s[k + i] && t[i + 1] == s[k + i + 1];
    }
  }

  lemma NoSpaceBeforeSuffix(s: string, k: nat, q: char -> bool)
    requires k <= |s| && NoSpaceBefore(s, q)
    ensures NoSpaceBefore(s[k..], q)
  {
    var t := s[k..];
    forall i | 0 < i < |t| && q(t[i]) ensures !IsSpace(t[i - 1]) {
      assert t[i] == s[k + i] && t[i - 1] == s[k + i - 1];
    }
  }

  // ----- what each scanner establishes -----

  /** After deleting the runs before class `q`, no whitespace is left before
      any character of that class. */
  lemma {:induction false} DropBeforeClean(s: string, q: char -> bool)
    requires NonSpaceClass(q)
    ensures NoSpaceBefore(DropBefore(s, q).text, q)
    decreases |s|
  {
    if |s| > 0 {
      if IsSpace(s[0]) {
        var n := SpaceRun(s);
        DropBeforeClean(s[n..], q);
        var rest := DropBefore(s[n..], q);
        if !(n < |s| && q(s[n])) {
          SpacesNoSpaceBefore(s[..n], rest.text, q);
        }
      } else {
        DropBeforeClean(s[1..], q);
        ConsNoSpaceBefore(s[0], DropBefore(s[1..], q).text, q);
      }
    }
  }

  // ----- how many matches each scanner counts -----

  lemma {:induction false} PairsSkip(s: string, n: nat, a: char -> bool, b: char -> bool)
    requires n <= |s| && forall i :: 0 <= i < n ==> !a(s[i])
    ensures Pairs(s, a, b) == Pairs(s[n..], a, b)
    decreases n
  {
    if n > 0 {
      assert s[1..][n - 1..] == s[n..];
      PairsSkip(s[1..], n - 1, a, b);
    }
  }

  lemma {:induction false} PairsSpaceRun(s: string, n: nat, b: char -> bool)
    requires NonSpaceClass(b)
    requires 1 <= n <= |s| && forall i :: 0 <= i < n ==> IsSpace(s[i])
    ensures Pairs(s, IsSpace, b) == (if n < |s| && b(s[n]) then 1 else 0) + Pairs(s[n..], IsSpace, b)
    decreases n
  {
    if n > 1 {
      assert s[1..][n - 1..] == s[n..];
      PairsSpaceRun(s[1..], n - 1, b);
    }
  }

  /** DropAfter counts one match per whitespace character that directly
      follows a character of class `o` (plus the one at the seam). */
  lemma {:induction false} DropAfterCount(s: string, o: char -> bool, prev: bool)
    requires NonSpaceClass(o)
    ensures DropAfter(s, o, prev).count ==
      Pairs(s, o, IsSpace) + (if prev && |s| > 0 && IsSpace(s[0]) then 1 else 0)
    decreases |s|
  {
    if |s| > 0 {
      if prev && IsSpace(s[0]) {
        var n := SpaceRun(s);
        DropAfterCount(s[n..], o, false);
        PairsSkip(s, n, o, IsSpace);
      } else {
        DropAfterCount(s[1..], o, o(s[0]));
      }
    }
  }

  /** DropBefore counts one match per whitespace character that directly
      precedes a character of class `q`. */
  lemma {:induction false} DropBeforeCount(s: string, q: char -> bool)
    requires NonSpaceClass(q)
    ensures DropBefore(s, q).count == Pairs(s, IsSpace, q)
    decreases |s|
  {
    if |s| > 0 {
      if IsSpace(s[0]) {
        var n := SpaceRun(s);
        DropBeforeCount(s[n..], q);
        PairsSpaceRun(s, n, q);
      } else {
        DropBeforeCount(s[1..], q);
      }
    }
  }

  // ----- a later scan never undoes an earlier one -----

  lemma {:induction false} AfterKeepsAfter(s: string, o: char -> bool, o': char -> bool, prev: bool)
    requires NoSpaceAfter(s, o)
    ensures NoSpaceAfter(DropAfter(s, o', prev).text, o)
    decreases |s|
  {
    if |s| > 0 {
      if prev && IsSpace(s[0]) {
        var n := SpaceRun(s);
        NoSpaceAfterSuffix(s, n, o);
        AfterKeepsAfter(s[n..], o, o', false);
      } else {
        NoSpaceAfterSuffix(s, 1, o);
        AfterKeepsAfter(s[1..], o, o', o'(s[0]));
        ConsNoSpaceAfter(s[0], DropAfter(s[1..], o', o'(s[0])).text, o);
      }
    }
  }

  lemma {:induction false} BeforeKeepsAfter(s: string, q: char -> bool, o: char -> bool)
    requires NonSpaceClass(o) && NoSpaceAfter(s, o)
    ensures NoSpaceAfter(DropBefore(s, q).text, o)
    decreases |s|
  {
    if |s| > 0 {
      if IsSpace(s[0]) {
        var n := SpaceRun(s);
        NoSpaceAfterSuffix(s, n, o);
        BeforeKeepsAfter(s[n..], q, o);
        if !(n < |s| && q(s[n])) {
          SpacesNoSpaceAfter(s[..n], DropBefore(s[n..], q).text, o);
        }
      } else {
        NoSpaceAfterSuffix(s, 1, o);
        BeforeKeepsAfter(s[1..], q, o);
        ConsNoSpaceAfter(s[0], DropBefore(s[1..], q).text, o);
      }
    }
  }

  lemma {:induction false} AfterKeepsBefore(s: string, o: char -> bool, prev: bool, q: char -> bool)
    requires NonSpaceClass(o) && NoSpaceBefore(s, q)
    ensures NoSpaceBefore(DropAfter(s, o, prev).text, q)
    decreases |s|
  {
    if |s| > 0 {
      if prev && IsSpace(s[0]) {
        var n := SpaceRun(s);
        NoSpaceBeforeSuffix(s, n, q);
        AfterKeepsBefore(s[n..], o, false, q);
      } else {
        NoSpaceBeforeSuffix(s, 1, q);
        AfterKeepsBefore(s[1..], o, o(s[0]), q);
        ConsNoSpaceBefore(s[0], DropAfter(s[1..], o, o(s[0])).text, q);
      }
    }
  }

  lemma {:induction false} BeforeKeepsBefore(s: string, q': char -> bool, q: char -> bool)
    requires NonSpaceClass(q) && NoSpaceBefore(s, q)
    ensures NoSpaceBefore(DropBefore(s, q').text, q)
    decreases |s|
  {
    if |s| > 0 {
      if IsSpace(s[0]) {
        var n := SpaceRun(s);
        NoSpaceBeforeSuffix(s, n, q);
        BeforeKeepsBefore(s[n..], q', q);
        if !(n < |s| && q'(s[n])) {
          if n < |s| {
            assert IsSpace(s[n - 1]);
          }
          SpacesNoSpaceBefore(s[..n], DropBefore(s[n..], q').text, q);
        }
      } else {
        NoSpaceBeforeSuffix(s, 1, q);
        BeforeKeepsBefore(s[1..], q', q);
        ConsNoSpaceBefore(s[0], DropBefore(s[1..], q').text, q);
      }
    }
  }

  lemma {:induction false} CountIfSkip(s: string, n: nat, p: char -> bool)
    requires n <= |s| && forall i :: 0 <= i < n ==> !p(s[i])
    ensures CountIf(s, p) == CountIf(s[n..], p)
  {
    assert s == s[..n] + s[n..];
    CountIfAppend(s[..n], s[n..], p);
    CountIfAbsent(s[..n], p);
  }

  lemma PairsNoneAfter(s: string, o: char -> bool)
    requires NoSpaceAfter(s, o)
    ensures Pairs(s, o, IsSpace) == 0
  {
    PairsNone(s, o, IsSpace);
  }

  lemma PairsNoneBefore(s: string, q: char -> bool)
    requires NoSpaceBefore(s, q)
    ensures Pairs(s, IsSpace, q) == 0
  {
    forall i | 0 <= i < |s| - 1 ensures !(IsSpace(s[i]) && q(s[i + 1])) {
      assert 0 < i + 1 < |s|;
    }
    PairsNone(s, IsSpace, q);
  }

  lemma {:induction false} PairsNone(s: string, a: char -> bool, b: char -> bool)
    requires forall i :: 0 <= i < |s| - 1 ==> !(a(s[i]) && b(s[i + 1]))
    ensures Pairs(s, a, b) == 0
    decreases |s|
  {
    if |s| >= 2 {
      var t := s[1..];
      forall i | 0 <= i < |t| - 1 ensures !(a(t[i]) && b(t[i + 1])) {
        assert t[i] == s[i + 1] && t[i + 1] == s[i + 2];
      }
      PairsNone(t, a, b);
    }
  }

  // ----- collapsing ASCII spaces -----

  /** `[ ]{2,}` -> `" "` deletes spaces and nothing else. */
  lemma {:induction false} CollapseSpacesOnlyDeletes(s: string)
    ensures OnlySpacesDeleted(s, Collapse(s, ' ', 2, ' ').text)
    decreases |s|
  {
    if |s| > 0 {
      if s[0] != ' ' {
        CollapseSpacesOnlyDeletes(s[1..]);
        KeptHead(s, Collapse(s[1..], ' ', 2, ' ').text);
      } else {
        var n := RunLen(s, ' ');
        var rest := Collapse(s[n..], ' ', 2, ' ').text;
        CollapseSpacesOnlyDeletes(s[n..]);
        if n >= 2 {
          assert s[1..][n - 1..] == s[n..];
          DroppedRun(s[1..], n - 1, rest);
          KeptHead(s, rest);
        } else {
          KeptRun(s, n, rest);
        }
      }
    }
  }

  /** Collapsing spaces never puts a space before a mark that had none. */
  lemma {:induction false} CollapseSpacesKeepsBefore(s: string, q: char -> bool)
    requires NonSpaceClass(q) && NoSpaceBefore(s, q)
    ensures NoSpaceBefore(Collapse(s, ' ', 2, ' ').text, q)
    decreases |s|
  {
    if |s| > 0 {
      if s[0] != ' ' {
        NoSpaceBeforeSuffix(s, 1, q);
        CollapseSpacesKeepsBefore(s[1..], q);
        ConsNoSpaceBefore(s[0], Collapse(s[1..], ' ', 2, ' ').text, q);
      } else {
        var n := RunLen(s, ' ');
        var rest := Collapse(s[n..], ' ', 2, ' ').text;
        NoSpaceBeforeSuffix(s, n, q);
        CollapseSpacesKeepsBefore(s[n..], q);
        if n < |s| {
          assert IsSpace(s[n - 1]);
        }
        var x := if n >= 2 then [' '] else s[..n];
        SpacesNoSpaceBefore(x, rest, q);
      }
    }
  }

  // ----- whitespace away from the class is kept -----

  lemma EmptyPrefix(x: string, y: string)
    requires |x| == 0
    ensures x == [] && x + y == y
  {
  }

  lemma EmptyLeft(x: string, w: string, y: string)
    requires |x| == 0
    ensures x + w + y == w + y
  {
  }

  lemma TailSplit(x: string, z: string)
    requires |x| > 0
    ensures (x + z)[0] == x[0] && (x + z)[1..] == x[1..] + z
  {
  }

  lemma ScanEmpty(o: char -> bool, prev: bool, q: char -> bool)
    ensures DropAfter([], o, prev) == Subn([], 0)
    ensures DropBefore([], q) == Subn([], 0)
  {
  }

  /** Every character of `w` is whitespace. */
  predicate AllSpace(w: string) {
    forall i :: 0 <= i < |w| ==> IsSpace(w[i])
  }

  lemma {:induction false} SpaceRunAppend(x: string, z: string)
    requires SpaceRun(x) < |x|
    ensures SpaceRun(x + z) == SpaceRun(x)
  {
    assert (x + z)[0] == x[0] && (x + z)[1..] == x[1..] + z;
    if IsSpace(x[0]) {
      SpaceRunAppend(x[1..], z);
    }
  }

  lemma {:induction false} SpaceRunPrefix(w: string, y: string)
    requires AllSpace(w) && (|y| == 0 || !IsSpace(y[0]))
    ensures SpaceRun(w + y) == |w|
  {
    if |w| > 0 {
      assert (w + y)[0] == w[0] && (w + y)[1..] == w[1..] + y;
      SpaceRunPrefix(w[1..], y);
    } else {
      assert w + y == y;
    }
  }

  /** The scan of `(?<=o)\s+` over `x + z` is the scans of `x` and of `z`. */
  predicate AfterSplits(x: string, z: string, o: char -> bool, prev: bool) {
    var a, b := DropAfter(x, o, prev), DropAfter(z, o, false);
    DropAfter(x + z, o, prev) == Subn(a.text + b.text, a.count + b.count)
  }

  /** One step of `DropAfter` at a whitespace run that follows an `o`. */
  lemma AfterSkip(s: string, o: char -> bool)
    requires |s| > 0 && IsSpace(s[0])
    ensures var rest := DropAfter(s[SpaceRun(s)..], o, false);
      DropAfter(s, o, true) == Subn(rest.text, rest.count + 1)
  {
  }

  lemma AfterSkipAt(x: string, z: string, o: char -> bool, n: nat)
    requires |x| > 0 && IsSpace(x[0]) && n == SpaceRun(x) && n < |x|
    requires SpaceRun(x + z) == n && (x + z)[0] == x[0] && (x + z)[n..] == x[n..] + z
    requires AfterSplits(x[n..], z, o, false)
    ensures AfterSplits(x, z, o, true)
  {
    AfterSkip(x, o);
    AfterSkip(x + z, o);
  }

  lemma AfterStepSkip(x: string, z: string, o: char -> bool)
    requires |x| > 0 && IsSpace(x[0]) && SpaceRun(x) < |x|
    requires AfterSplits(x[SpaceRun(x)..], z, o, false)
    ensures AfterSplits(x, z, o, true)
  {
    SpaceRunAppend(x, z);
    CutSplit(x, z, SpaceRun(x));
    AfterSkipAt(x, z, o, SpaceRun(x));
  }

  /** One step of `DropAfter` at a character it keeps. */
  lemma AfterKeep(s: string, o: char -> bool, prev: bool)
    requires |s| > 0 && !(prev && IsSpace(s[0]))
    ensures var rest := DropAfter(s[1..], o, o(s[0]));
      DropAfter(s, o, prev) == Subn([s[0]] + rest.text, rest.count)
  {
  }

  lemma AfterStepKeep(x: string, z: string, o: char -> bool, prev: bool)
    requires |x| > 1 && !(prev && IsSpace(x[0]))
    requires AfterSplits(x[1..], z, o, o(x[0]))
    ensures AfterSplits(x, z, o, prev)
  {
    CutSplit(x, z, 1);
    AfterKeep(x, o, prev);
    AfterKeep(x + z, o, prev);
    AppendAssoc([x[0]], DropAfter(x[1..], o, o(x[0])).text, DropAfter(z, o, false).text);
  }

  lemma AfterStepLast(x: string, z: string, o: char -> bool, prev: bool)
    requires |x| == 1 && !IsSpace(x[0]) && !o(x[0])
    ensures AfterSplits(x, z, o, prev)
  {
    CutSplit(x, z, 0);
    assert (x + z)[1..] == z;
    AfterKeep(x, o, prev);
    AfterKeep(x + z, o, prev);
    ScanEmpty(o, false, o);
  }

  /** The scan of `(?<=o)\s+` splits after a last character that is
      neither whitespace nor of class `o`. */
  lemma {:induction false} DropAfterAppend(x: string, z: string, o: char -> bool, prev: bool)
    requires |x| > 0 && !IsSpace(x[|x| - 1]) && !o(x[|x| - 1])
    ensures AfterSplits(x, z, o, prev)
    decreases |x|
  {
    if prev && IsSpace(x[0]) {
      var n := SpaceRun(x);
      assert x[n..][|x| - n - 1] == x[|x| - 1];
      DropAfterAppend(x[n..], z, o, false);
      AfterStepSkip(x, z, o);
    } else if |x| == 1 {
      AfterStepLast(x, z, o, prev);
    } else {
      assert x[1..][|x| - 2] == x[|x| - 1];
      DropAfterAppend(x[1..], z, o, o(x[0]));
      AfterStepKeep(x, z, o, prev);
    }
  }

  /** Whitespace that does not follow an `o` is copied through. */
  lemma {:induction false} SpacesKeptAfter(w: string, y: string, o: char -> bool)
    requires NonSpaceClass(o) && AllSpace(w)
    ensures DropAfter(w + y, o, false) ==
      Subn(w + DropAfter(y, o, false).text, DropAfter(y, o, false).count)
  {
    if |w| > 0 {
      TailSplit(w, y);
      assert !o(w[0]);
      AfterKeep(w + y, o, false);
      SpacesKeptAfter(w[1..], y, o);
      AppendAssoc([w[0]], w[1..], DropAfter(y, o, false).text);
      ConsSplit(w, y);
    } else {
      EmptyPrefix(w, y);
    }
  }

  /** A whitespace run after a character that is not of class `o`, or at
      the very start, survives `(?<=o)\s+` whole, and the text on either
      side is scanned on its own. */
  lemma DropAfterFrame(x: string, w: string, y: string, o: char -> bool, prev: bool)
    requires NonSpaceClass(o) && AllSpace(w)
    requires if |x| == 0 then !prev else !IsSpace(x[|x| - 1]) && !o(x[|x| - 1])
    ensures DropAfter(x + w + y, o, prev).text == DropAfter(x, o, prev).text + w + DropAfter(y, o, false).text
    ensures DropAfter(x + w + y, o, prev).count == DropAfter(x, o, prev).count + DropAfter(y, o, false).count
  {
    SpacesKeptAfter(w, y, o);
    if |x| == 0 {
      ScanEmpty(o, prev, o);
      EmptyLeft(x, w, y);
      EmptyLeft(x, w, DropAfter(y, o, false).text);
      assert x == [];
    } else {
      Assoc3(x, w, y);
      DropAfterAppend(x, w + y, o, prev);
      AppendAssoc(DropAfter(x, o, prev).text, w, DropAfter(y, o, false).text);
    }
  }

  /** The scan of `\s+(?=q)` over `x + z` is the scans of `x` and of `z`. */
  predicate BeforeSplits(x: string, z: string, q: char -> bool) {
    var a, b := DropBefore(x, q), DropBefore(z, q);
    DropBefore(x + z, q) == Subn(a.text + b.text, a.count + b.count)
  }

  /** One step of `DropBefore` at a whitespace run that ends inside the text. */
  lemma BeforeRun(s: string, q: char -> bool)
    requires |s| > 0 && IsSpace(s[0]) && SpaceRun(s) < |s|
    ensures var n := SpaceRun(s); var rest := DropBefore(s[n..], q);
      DropBefore(s, q) == if q(s[n]) then Subn(rest.text, rest.count + 1) else Subn(s[..n] + rest.text, rest.count)
  {
  }

  lemma BeforeRunAt(x: string, z: string, q: char -> bool, n: nat)
    requires |x| > 0 && IsSpace(x[0]) && n == SpaceRun(x) && n < |x|
    requires SpaceRun(x + z) == n && (x + z)[0] == x[0] && (x + z)[n] == x[n]
    requires (x + z)[..n] == x[..n] && (x + z)[n..] == x[n..] + z
    requires BeforeSplits(x[n..], z, q)
    ensures BeforeSplits(x, z, q)
  {
    BeforeRun(x, q);
    BeforeRun(x + z, q);
    AppendAssoc(x[..n], DropBefore(x[n..], q).text, DropBefore(z, q).text);
  }

  lemma BeforeStepRun(x: string, z: string, q: char -> bool)
    requires |x| > 0 && IsSpace(x[0]) && SpaceRun(x) < |x|
    requires BeforeSplits(x[SpaceRun(x)..], z, q)
    ensures BeforeSplits(x, z, q)
  {
    var n := SpaceRun(x);
    SpaceRunAppend(x, z);
    CutSplit(x, z, n);
    assert (x + z)[n] == x[n];
    BeforeRunAt(x, z, q, n);
  }

  /** One step of `DropBefore` at a character that is not whitespace. */
  lemma BeforeKeep(s: string, q: char -> bool)
    requires |s| > 0 && !IsSpace(s[0])
    ensures var rest := DropBefore(s[1..], q);
      DropBefore(s, q) == Subn([s[0]] + rest.text, rest.count)
  {
  }

  lemma BeforeStepKeep(x: string, z: string, q: char -> bool)
    requires |x| > 0 && !IsSpace(x[0])
    requires BeforeSplits(x[1..], z, q)
    ensures BeforeSplits(x, z, q)
  {
    TailSplit(x, z);
    BeforeKeep(x, q);
    BeforeKeep(x + z, q);
    AppendAssoc([x[0]], DropBefore(x[1..], q).text, DropBefore(z, q).text);
  }

  /** The scan of `\s+(?=q)` splits after a last character that is not
      whitespace. */
  lemma {:induction false} DropBeforeAppend(x: string, z: string, q: char -> bool)
    requires |x| > 0 && !IsSpace(x[|x| - 1])
    ensures BeforeSplits(x, z, q)
    decreases |x|
  {
    if IsSpace(x[0]) {
      var n := SpaceRun(x);
      assert x[n..][|x| - n - 1] == x[|x| - 1];
      DropBeforeAppend(x[n..], z, q);
      BeforeStepRun(x, z, q);
    } else if |x| == 1 {
      var e: string := [];
      assert x[1..] + z == z && x[1..] == e;
      BeforeStepKeep(x, z, q);
    } else {
      assert x[1..][|x| - 2] == x[|x| - 1];
      DropBeforeAppend(x[1..], z, q);
      BeforeStepKeep(x, z, q);
    }
  }

  /** Whitespace followed by neither whitespace nor a `q` is copied through. */
  lemma SpacesKeptBefore(w: string, y: string, q: char -> bool)
    requires AllSpace(w) && (|y| == 0 || (!IsSpace(y[0]) && !q(y[0])))
    ensures DropBefore(w + y, q) == Subn(w + DropBefore(y, q).text, DropBefore(y, q).count)
  {
    if |w| > 0 {
      SpaceRunPrefix(w, y);
      assert (w + y)[0] == w[0];
      assert (w + y)[..|w|] == w && (w + y)[|w|..] == y;
    } else {
      assert w + y == y;
    }
  }

  /** A whitespace run between a character that is not whitespace (or the
      start) and one that is neither whitespace nor of class `q` (or the
      end) survives `\s+(?=q)` whole, and the text on either side is
      scanned on its own. */
  lemma DropBeforeFrame(x: string, w: string, y: string, q: char -> bool)
    requires AllSpace(w)
    requires |x| == 0 || !IsSpace(x[|x| - 1])
    requires |y| == 0 || (!IsSpace(y[0]) && !q(y[0]))
    ensures DropBefore(x + w + y, q).text == DropBefore(x, q).text + w + DropBefore(y, q).text
    ensures DropBefore(x + w + y, q).count == DropBefore(x, q).count + DropBefore(y, q).count
  {
    SpacesKeptBefore(w, y, q);
    if |x| == 0 {
      ScanEmpty(q, false, q);
      EmptyLeft(x, w, y);
      EmptyLeft(x, w, DropBefore(y, q).text);
      assert x == [];
    } else {
      Assoc3(x, w, y);
      DropBeforeAppend(x, w + y, q);
      AppendAssoc(DropBefore(x, q).text, w, DropBefore(y, q).text);
    }
  }


  // ----- fix_spaces: ten passes, one per side of five bracket kinds -----

  /** One pattern of fix_spaces: `(?<=c)\s+` or `\s+(?=c)`. */
  datatype Pass = After(c: char) | Before(c: char)

  const BRACKET_PASSES: seq<Pass> := [
    After(OPEN_QUOTE), Before(CLOSE_QUOTE), After('('), Before(')'), After('['),
    Before(']'), After('{'), Before('}'), After(OPEN_ANGLE), Before(CLOSE_ANGLE)]

  /** The one-character class `[c]`. */
  function Is(c: char): char -> bool {
    x => x == c
  }

  function RunPass(s: string, p: Pass): Subn {
    match p
    case After(c) => DropAfter(s, Is(c), false)
    case Before(c) => DropBefore(s, Is(c))
  }

  /** The text has no whitespace on the side of `p.c` that `p` trims. */
  predicate Clean(s: string, p: Pass) {
    match p
    case After(c) => NoSpaceAfter(s, Is(c))
    case Before(c) => NoSpaceBefore(s, Is(c))
  }

  lemma PassCleans(s: string, p: Pass)
    requires !IsSpace(p.c)
    ensures Clean(RunPass(s, p).text, p)
  {
    if p.Before? {
      DropBeforeClean(s, Is(p.c));
    }
  }

  lemma PassKeepsClean(s: string, p: Pass, p': Pass)
    requires !IsSpace(p.c) && !IsSpace(p'.c) && Clean(s, p)
    ensures Clean(RunPass(s, p').text, p)
  {
    var c := p.c;
    if p.After? && p'.After? {
      AfterKeepsAfter(s, Is(c), Is(p'.c), false);
    } else if p.After? {
      BeforeKeepsAfter(s, Is(p'.c), Is(c));
    } else if p'.After? {
      AfterKeepsBefore(s, Is(p'.c), false, Is(c));
    } else {
      BeforeKeepsBefore(s, Is(p'.c), Is(c));
    }
  }

  /** A pass counts one match per whitespace run it trims: the pairs of
      bracket and whitespace on its side of the bracket. */
  lemma PassCount(s: string, p: Pass)
    requires !IsSpace(p.c)
    ensures RunPass(s, p).count ==
      if p.After? then Pairs(s, Is(p.c), IsSpace) else Pairs(s, IsSpace, Is(p.c))
  {
    if p.After? {
      DropAfterCount(s, Is(p.c), false);
    } else {
      DropBeforeCount(s, Is(p.c));
    }
  }

  /** The loop of fix_spaces: the passes in order, their counts summed. */
  function RunPasses(s: string, ps: seq<Pass>): (r: Subn)
    ensures OnlySpacesDeleted(s, r.text)
    ensures r.count + |r.text| <= |s|
    ensures r.count == 0 ==> r.text == s
    decreases |ps|
  {
    if |ps| == 0 then
      SubseqReflexive(s);
      Subn(s, 0)
    else
      var a := RunPass(s, ps[0]);
      var b := RunPasses(a.text, ps[1..]);
      OnlySpacesDeletedTransitive(s, a.text, b.text);
      Subn(b.text, a.count + b.count)
  }

  lemma {:induction false} RunPassesKeep(s: string, ps: seq<Pass>, p: Pass)
    requires !IsSpace(p.c) && forall p' :: p' in ps ==> !IsSpace(p'.c)
    requires Clean(s, p)
    ensures Clean(RunPasses(s, ps).text, p)
    decreases |ps|
  {
    if |ps| > 0 {
      PassKeepsClean(s, p, ps[0]);
      RunPassesKeep(RunPass(s, ps[0]).text, ps[1..], p);
    }
  }

  /** After the passes, every one of them holds. */
  lemma {:induction false} RunPassesClean(s: string, ps: seq<Pass>)
    requires forall p :: p in ps ==> !IsSpace(p.c)
    ensures forall p :: p in ps ==> Clean(RunPasses(s, ps).text, p)
    decreases |ps|
  {
    if |ps| > 0 {
      var a := RunPass(s, ps[0]).text;
      RunPassesClean(a, ps[1..]);
      PassCleans(s, ps[0]);
      RunPassesKeep(a, ps[1..], ps[0]);
      forall p | p in ps ensures Clean(RunPasses(s, ps).text, p) {
        if p != ps[0] {
          assert p in ps[1..];
        }
      }
    }
  }

  /** On a text every pass already holds for, the passes change nothing. */
  lemma {:induction false} RunPassesIdle(s: string, ps: seq<Pass>)
    requires forall p :: p in ps ==> !IsSpace(p.c) && Clean(s, p)
    ensures RunPasses(s, ps) == Subn(s, 0)
    decreases |ps|
  {
    if |ps| > 0 {
      var p := ps[0];
      PassCount(s, p);
      if p.After? {
        PairsNoneAfter(s, Is(p.c));
      } else {
        PairsNoneBefore(s, Is(p.c));
      }
      RunPassesIdle(s, ps[1..]);
    }
  }

  lemma BracketPassesChars()
    ensures forall p :: p in BRACKET_PASSES ==> !IsSpace(p.c)
  {
  }

  /** The ten passes together: no whitespace after an opening bracket and
      none before a closing one. */
  lemma BracketsClean(s: string)
    requires forall p :: p in BRACKET_PASSES ==> Clean(s, p)
    ensures NoSpaceAfter(s, IsOpener) && NoSpaceBefore(s, IsCloser)
  {
    assert Clean(s, BRACKET_PASSES[0]) && Clean(s, BRACKET_PASSES[2]) && Clean(s, BRACKET_PASSES[4])
      && Clean(s, BRACKET_PASSES[6]) && Clean(s, BRACKET_PASSES[8]);
    assert Clean(s, BRACKET_PASSES[1]) && Clean(s, BRACKET_PASSES[3]) && Clean(s, BRACKET_PASSES[5])
      && Clean(s, BRACKET_PASSES[7]) && Clean(s, BRACKET_PASSES[9]);
    forall i | 0 <= i < |s| - 1 && IsOpener(s[i]) ensures !IsSpace(s[i + 1]) {
      assert Is(s[i])(s[i]);
    }
    forall i | 0 < i < |s| && IsCloser(s[i]) ensures !IsSpace(s[i - 1]) {
      assert Is(s[i])(s[i]);
    }
  }

  lemma BracketsCleanEach(s: string)
    requires NoSpaceAfter(s, IsOpener) && NoSpaceBefore(s, IsCloser)
    ensures forall p :: p in BRACKET_PASSES ==> Clean(s, p)
  {
    forall p | p in BRACKET_PASSES ensures Clean(s, p) {
      var c := p.c;
      if p.After? {
        forall i | 0 <= i < |s| - 1 && Is(c)(s[i]) ensures !IsSpace(s[i + 1]) {
          assert IsOpener(s[i]);
        }
      } else {
        forall i | 0 < i < |s| && Is(c)(s[i]) ensures !IsSpace(s[i - 1]) {
          assert IsCloser(s[i]);
        }
      }
    }
  }

  /** fix_spaces: whitespace just inside «», (), [], {} and ⟨⟩ is deleted;
      the counter grows by the number of runs deleted. */
  function FixSpaces(t: string): (r: Rewrite)
    ensures OnlySpacesDeleted(t, r.text)
    ensures NoSpaceAfter(r.text, IsOpener) && NoSpaceBefore(r.text, IsCloser)
    ensures Get(r.delta, InnerBracketSpace) + |r.text| <= |t|
    ensures Get(r.delta, InnerBracketSpace) == 0 <==> r.text == t
    ensures Within(r.delta, {InnerBracketSpace})
  {
    var p := RunPasses(t, BRACKET_PASSES);
    BracketPassesResult(t);
    Rewrite(p.text, map[InnerBracketSpace := p.count])
  }

  lemma BracketPassesResult(t: string)
    ensures var s := RunPasses(t, BRACKET_PASSES).text;
      NoSpaceAfter(s, IsOpener) && NoSpaceBefore(s, IsCloser)
  {
    BracketPassesChars();
    RunPassesClean(t, BRACKET_PASSES);
    BracketsClean(RunPasses(t, BRACKET_PASSES).text);
  }

  /** A text with no whitespace inside its brackets is left alone. */
  lemma FixSpacesIdle(t: string)
    requires NoSpaceAfter(t, IsOpener) && NoSpaceBefore(t, IsCloser)
    ensures FixSpaces(t).text == t && Zero(FixSpaces(t).delta)
  {
    BracketPassesChars();
    BracketsCleanEach(t);
    RunPassesIdle(t, BRACKET_PASSES);
  }

  lemma FixSpacesIdempotent(t: string)
    ensures var once := FixSpaces(t).text;
      FixSpaces(once).text == once && Zero(FixSpaces(once).delta)
  {
    FixSpacesIdle(FixSpaces(t).text);
  }

  lemma AfterPassFrame(x: string, w: string, y: string, c: char)
    requires !IsSpace(c) && AllSpace(w)
    requires |x| == 0 || (!IsSpace(x[|x| - 1]) && x[|x| - 1] != c)
    ensures DropAfter(x + w + y, Is(c), false).text == DropAfter(x, Is(c), false).text + w + DropAfter(y, Is(c), false).text
    ensures DropAfter(x + w + y, Is(c), false).count == DropAfter(x, Is(c), false).count + DropAfter(y, Is(c), false).count
    ensures |x| > 0 ==> var t := DropAfter(x, Is(c), false).text; |t| > 0 && t[|t| - 1] == x[|x| - 1]
    ensures |y| > 0 ==> var t := DropAfter(y, Is(c), false).text; |t| > 0 && t[0] == y[0]
  {
    IsNonSpace(c);
    DropAfterFrame(x, w, y, Is(c), false);
    if |x| > 0 {
      DropAfterLast(x, Is(c), false);
    }
  }

  lemma BeforePassFrame(x: string, w: string, y: string, c: char)
    requires AllSpace(w)
    requires |x| == 0 || !IsSpace(x[|x| - 1])
    requires |y| == 0 || (!IsSpace(y[0]) && y[0] != c)
    ensures DropBefore(x + w + y, Is(c)).text == DropBefore(x, Is(c)).text + w + DropBefore(y, Is(c)).text
    ensures DropBefore(x + w + y, Is(c)).count == DropBefore(x, Is(c)).count + DropBefore(y, Is(c)).count
    ensures |x| > 0 ==> var t := DropBefore(x, Is(c)).text; |t| > 0 && t[|t| - 1] == x[|x| - 1]
    ensures |y| > 0 ==> var t := DropBefore(y, Is(c)).text; |t| > 0 && t[0] == y[0]
  {
    DropBeforeFrame(x, w, y, Is(c));
    if |x| > 0 {
      DropBeforeLast(x, Is(c));
    }
  }

  /** One pass keeps a whitespace run whose neighbours are not the
      bracket it trims on that side, and keeps the neighbours too. */
  lemma PassFrame(x: string, w: string, y: string, p: Pass)
    requires !IsSpace(p.c) && AllSpace(w)
    requires |x| == 0 || (!IsSpace(x[|x| - 1]) && (p.After? ==> x[|x| - 1] != p.c))
    requires |y| == 0 || (!IsSpace(y[0]) && (p.Before? ==> y[0] != p.c))
    ensures RunPass(x + w + y, p).text == RunPass(x, p).text + w + RunPass(y, p).text
    ensures RunPass(x + w + y, p).count == RunPass(x, p).count + RunPass(y, p).count
    ensures |x| > 0 ==> var t := RunPass(x, p).text; |t| > 0 && t[|t| - 1] == x[|x| - 1]
    ensures |y| > 0 ==> var t := RunPass(y, p).text; |t| > 0 && t[0] == y[0]
  {
    RunPassIs(x + w + y, p);
    RunPassIs(x, p);
    RunPassIs(y, p);
    if p.After? {
      AfterPassFrame(x, w, y, p.c);
    } else {
      BeforePassFrame(x, w, y, p.c);
    }
  }

  lemma RunPassIs(s: string, p: Pass)
    ensures RunPass(s, p) == if p.After? then DropAfter(s, Is(p.c), false) else DropBefore(s, Is(p.c))
  {
  }

  lemma IsNonSpace(c: char)
    requires !IsSpace(c)
    ensures NonSpaceClass(Is(c))
  {
  }

  /** The passes keep a whitespace run whose neighbours none of them trims. */
  lemma RunPassesStep(s: string, ps: seq<Pass>)
    requires |ps| > 0
    ensures var a := RunPass(s, ps[0]); var b := RunPasses(a.text, ps[1..]);
      RunPasses(s, ps) == Subn(b.text, a.count + b.count)
  {
  }

  lemma {:induction false} RunPassesFrame(x: string, w: string, y: string, ps: seq<Pass>)
    requires AllSpace(w) && forall p :: p in ps ==> !IsSpace(p.c)
    requires |x| == 0 || (!IsSpace(x[|x| - 1]) && forall p :: p in ps && p.After? ==> x[|x| - 1] != p.c)
    requires |y| == 0 || (!IsSpace(y[0]) && forall p :: p in ps && p.Before? ==> y[0] != p.c)
    ensures RunPasses(x + w + y, ps).text == RunPasses(x, ps).text + w + RunPasses(y, ps).text
    ensures RunPasses(x + w + y, ps).count == RunPasses(x, ps).count + RunPasses(y, ps).count
    decreases |ps|
  {
    if |ps| > 0 {
      var x', y' := RunPass(x, ps[0]).text, RunPass(y, ps[0]).text;
      PassFrame(x, w, y, ps[0]);
      assert forall p :: p in ps[1..] ==> p in ps;
      RunPassesFrame(x', w, y', ps[1..]);
      RunPassesStep(x + w + y, ps);
      RunPassesStep(x, ps);
      RunPassesStep(y, ps);
    }
  }

  lemma BracketPassesSides()
    ensures forall p :: p in BRACKET_PASSES && p.After? ==> IsOpener(p.c)
    ensures forall p :: p in BRACKET_PASSES && p.Before? ==> IsCloser(p.c)
  {
  }

  /** Whitespace that is not just inside a bracket is kept: a run between
      a character that is neither whitespace nor an opener (or the start)
      and one that is neither whitespace nor a closer (or the end) comes
      out whole, and nothing on either side is counted for it. */
  lemma FixSpacesFrame(x: string, w: string, y: string)
    requires AllSpace(w)
    requires |x| == 0 || (!IsSpace(x[|x| - 1]) && !IsOpener(x[|x| - 1]))
    requires |y| == 0 || (!IsSpace(y[0]) && !IsCloser(y[0]))
    ensures FixSpaces(x + w + y).text == FixSpaces(x).text + w + FixSpaces(y).text
    ensures Get(FixSpaces(x + w + y).delta, InnerBracketSpace) ==
      Get(FixSpaces(x).delta, InnerBracketSpace) + Get(FixSpaces(y).delta, InnerBracketSpace)
  {
    BracketPassesChars();
    BracketPassesSides();
    RunPassesFrame(x, w, y, BRACKET_PASSES);
  }

  // ----- fix_space_before_punct -----

  /** The replacement function `repl` of fix_space_before_punct, with
      `start` the index where the match begins in `text`, `ws` the
      whitespace it took and `punct` the captured mark. The opener case is
      unreachable: no opener is in the capture class, so every match
      becomes the bare mark. */
  function BeforePunctRepl(text: string, start: nat, ws: string, punct: char): (r: string)
    requires start <= |text|
    ensures IsPunctBeforeClass(punct) ==> r == [punct]
  {
    if IsOpenerCase(punct) then
      if start == 0 then [punct]
      else if text[start - 1] != ' ' then [' ', punct]
      else ws + [punct]
    else [punct]
  }

  /** `re.subn(r"\s*([،؛:؟!.»\]\)\}])", repl, text)` on the part `s` of
      `text` still to be scanned, so a match found at the head of `s` starts
      at index |text| - |s|: every mark of the class is one match, together
      with the (possibly empty) whitespace run before it. */
  function PunctScan(text: string, s: string): (r: Subn)
    requires |s| <= |text|
    decreases |s|
  {
    if |s| == 0 then Subn([], 0)
    else
      var n := SpaceRun(s);
      if n < |s| && IsPunctBeforeClass(s[n]) then
        var rest := PunctScan(text, s[n + 1..]);
        Subn(BeforePunctRepl(text, |text| - |s|, s[..n], s[n]) + rest.text, rest.count + 1)
      else if n == 0 then
        var rest := PunctScan(text, s[1..]);
        Subn([s[0]] + rest.text, rest.count)
      else
        var rest := PunctScan(text, s[n..]);
        Subn(s[..n] + rest.text, rest.count)
  }

  /** The scan makes one match per mark of the class. */
  lemma {:induction false} PunctScanCount(text: string, s: string)
    requires |s| <= |text|
    ensures PunctScan(text, s).count == CountIf(s, IsPunctBeforeClass)
    decreases |s|
  {
    if |s| > 0 {
      var n := SpaceRun(s);
      CountIfSkip(s, n, IsPunctBeforeClass);
      if n < |s| && IsPunctBeforeClass(s[n]) {
        PunctScanCount(text, s[n + 1..]);
        assert s[n..][1..] == s[n + 1..];
      } else if n == 0 {
        PunctScanCount(text, s[1..]);
      } else {
        PunctScanCount(text, s[n..]);
      }
    }
  }

  /** The scan deletes exactly what `\s+(?=[class])` would: a mark with no
      whitespace before it is matched too, but rewritten to itself. */
  lemma {:induction false} PunctScanIsDropBefore(text: string, s: string)
    requires |s| <= |text|
    ensures PunctScan(text, s).text == DropBefore(s, IsPunctBeforeClass).text
    decreases |s|
  {
    if |s| > 0 {
      var n := SpaceRun(s);
      if n < |s| && IsPunctBeforeClass(s[n]) {
        PunctScanIsDropBefore(text, s[n + 1..]);
        assert s[n..][1..] == s[n + 1..];
        DropBeforeHead(s[n..], IsPunctBeforeClass);
        if n > 0 {
          DropBeforeSpaceStep(s, IsPunctBeforeClass);
        }
      } else if n == 0 {
        PunctScanIsDropBefore(text, s[1..]);
        DropBeforeHead(s, IsPunctBeforeClass);
      } else {
        PunctScanIsDropBefore(text, s[n..]);
        DropBeforeSpaceStep(s, IsPunctBeforeClass);
      }
    }
  }



  /** One step of DropBefore on a text that starts with a non-space. */
  lemma DropBeforeHead(s: string, q: char -> bool)
    requires |s| > 0 && !IsSpace(s[0])
    ensures DropBefore(s, q).text == [s[0]] + DropBefore(s[1..], q).text
  {
  }

  /** One step of DropBefore on a text that starts with whitespace. */
  lemma DropBeforeSpaceStep(s: string, q: char -> bool)
    requires |s| > 0 && IsSpace(s[0])
    ensures var n := SpaceRun(s);
      DropBefore(s, q).text ==
        if n < |s| && q(s[n]) then DropBefore(s[n..], q).text else s[..n] + DropBefore(s[n..], q).text
  {
  }

  /** fix_space_before_punct: whitespace before a mark of the class is
      deleted; the counter grows by the number of marks of the class in
      the text, whether or not whitespace preceded them. */
  function FixSpaceBeforePunct(t: string): (r: Rewrite)
    ensures OnlySpacesDeleted(t, r.text)
    ensures NoSpaceBefore(r.text, IsPunctBeforeClass)
    ensures r.text == DropBefore(t, IsPunctBeforeClass).text
    ensures Get(r.delta, SpaceBeforePunct) == CountIf(t, IsPunctBeforeClass)
    ensures Within(r.delta, {SpaceBeforePunct})
  {
    var m := PunctScan(t, t);
    PunctScanIsDropBefore(t, t);
    PunctScanCount(t, t);
    DropBeforeClean(t, IsPunctBeforeClass);
    Rewrite(m.text, if m.count > 0 then map[SpaceBeforePunct := m.count] else map[])
  }

  lemma FixSpaceBeforePunctIdempotent(t: string)
    ensures var once := FixSpaceBeforePunct(t).text;
      FixSpaceBeforePunct(once).text == once
  {
    var once := FixSpaceBeforePunct(t).text;
    DropBeforeCount(once, IsPunctBeforeClass);
    PairsNoneBefore(once, IsPunctBeforeClass);
  }

  // ----- fix_extra_spaces -----

  /** fix_extra_spaces: whitespace runs before `، ؛ ؟ . ) » ] } ⟩` are deleted,
      then every run of two or more ASCII spaces becomes one; the counter
      grows by the matches of both steps. */
  function FixExtraSpaces(t: string): (r: Rewrite)
    ensures OnlySpacesDeleted(t, r.text)
    ensures NoSpaceBefore(r.text, IsExtraSpaceClass)
    ensures NoDouble(r.text, ' ')
    ensures Get(r.delta, ExtraSpace) ==
      Pairs(t, IsSpace, IsExtraSpaceClass) + LongRuns(DropBefore(t, IsExtraSpaceClass).text, ' ', 2, false)
    ensures Get(r.delta, ExtraSpace) == 0 <==> r.text == t
    ensures Within(r.delta, {ExtraSpace})
  {
    var a := DropBefore(t, IsExtraSpaceClass);
    var b := Collapse(a.text, ' ', 2, ' ');
    ExtraSpacesFacts(t);
    Rewrite(b.text, map[ExtraSpace := a.count + b.count])
  }

  lemma ExtraSpacesFacts(t: string)
    ensures var a := DropBefore(t, IsExtraSpaceClass);
      var b := Collapse(a.text, ' ', 2, ' ');
      && OnlySpacesDeleted(t, b.text)
      && NoSpaceBefore(b.text, IsExtraSpaceClass)
      && NoDouble(b.text, ' ')
      && a.count == Pairs(t, IsSpace, IsExtraSpaceClass)
      && b.count == LongRuns(a.text, ' ', 2, false)
  {
    var a := DropBefore(t, IsExtraSpaceClass);
    var b := Collapse(a.text, ' ', 2, ' ');
    CollapseSpacesOnlyDeletes(a.text);
    OnlySpacesDeletedTransitive(t, a.text, b.text);
    DropBeforeClean(t, IsExtraSpaceClass);
    CollapseSpacesKeepsBefore(a.text, IsExtraSpaceClass);
    CollapseLeavesNoRun(a.text, ' ', 2, ' ');
    PairRunsIffDouble(b.text, ' ', ' ');
    DropBeforeCount(t, IsExtraSpaceClass);
    CollapseCountsRuns(a.text, ' ', 2, ' ');
  }

  /** A text fix_extra_spaces has already been through is left alone. */
  lemma FixExtraSpacesIdempotent(t: string)
    ensures var once := FixExtraSpaces(t).text;
      FixExtraSpaces(once).text == once && Zero(FixExtraSpaces(once).delta)
  {
    var once := FixExtraSpaces(t).text;
    DropBeforeCount(once, IsExtraSpaceClass);
    PairsNoneBefore(once, IsExtraSpaceClass);
    PairRunsIffDouble(once, ' ', ' ');
  }

  /** A run of ASCII spaces that is not in front of a mark becomes exactly
      one space: a run of two or more collapses, a single space is kept,
      and the text on either side is rewritten on its own. */
  lemma ExtraSpacesFrame(x: string, w: string, y: string)
    requires |w| >= 1 && forall i :: 0 <= i < |w| ==> w[i] == ' '
    requires |x| == 0 || !IsSpace(x[|x| - 1])
    requires |y| == 0 || (!IsSpace(y[0]) && !IsExtraSpaceClass(y[0]))
    ensures FixExtraSpaces(x + w + y).text == FixExtraSpaces(x).text + [' '] + FixExtraSpaces(y).text
  {
    DropBeforeFrame(x, w, y, IsExtraSpaceClass);
    var dx, dy := DropBefore(x, IsExtraSpaceClass).text, DropBefore(y, IsExtraSpaceClass).text;
    if |x| > 0 {
      DropBeforeLast(x, IsExtraSpaceClass);
    }
    RunBecomesOne(dx, w, dy, ' ');
  }
}
