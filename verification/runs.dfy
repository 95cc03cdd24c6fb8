/** Collapsing runs of one repeated character, as `re.subn("c{min,}", rep, s)`
    does for the patterns `؟{2,}`, `!{2,}`, `[ ]{2,}` and `\.{3,}`
    (PAKNEVIS.py:217-220, 345, 349-354): scanning left to right, each
    maximal run of at least `min` copies of `c` becomes one `rep`. */
module Runs {
  import opened Text

  /** Length of the run of `c` at the front of `s`. */
  function RunLen(s: string, c: char): (n: nat)
    ensures n <= |s|
    ensures forall i :: 0 <= i < n ==> s[i] == c
    ensures n < |s| ==> s[n] != c
  {
    if |s| == 0 || s[0] != c then 0 else 1 + RunLen(s[1..], c)
  }

  /** `s` with every `a` and every `b` removed. */
  function Erase(s: string, a: char, b: char): (r: string)
    ensures |r| <= |s|
  {
    if |s| == 0 then []
    else (if s[0] == a || s[0] == b then [] else [s[0]]) + Erase(s[1..], a, b)
  }

  lemma {:induction false} EraseAppend(x: string, y: string, a: char, b: char)
    ensures Erase(x + y, a, b) == Erase(x, a, b) + Erase(y, a, b)
  {
    if |x| > 0 {
      assert (x + y)[0] == x[0] && (x + y)[1..] == x[1..] + y;
      EraseAppend(x[1..], y, a, b);
    } else {
      assert x + y == y;
    }
  }

  lemma {:induction false} EraseNothingLeft(x: string, a: char, b: char)
    requires forall i :: 0 <= i < |x| ==> x[i] == a || x[i] == b
    ensures Erase(x, a, b) == []
  {
    if |x| > 0 {
      EraseNothingLeft(x[1..], a, b);
    }
  }

  /** Erasing `a` and `b` together is erasing `a`, then `b`. */
  lemma {:induction false} EraseTwice(x: string, a: char, b: char)
    ensures Erase(x, a, b) == Erase(Erase(x, a, a), b, b)
  {
    if |x| > 0 {
      EraseTwice(x[1..], a, b);
      var head := if x[0] == a then [] else [x[0]];
      EraseAppend(head, Erase(x[1..], a, a), b, b);
    }
  }

  lemma {:induction false} EraseSymmetric(x: string, a: char, b: char)
    ensures Erase(x, a, b) == Erase(x, b, a)
  {
    if |x| > 0 {
      EraseSymmetric(x[1..], a, b);
    }
  }

  /** Erasing keeps exactly the characters other than `a` and `b`. */
  lemma {:induction false} EraseMembers(x: string, a: char, b: char, ch: char)
    ensures ch in Erase(x, a, b) <==> ch in x && ch != a && ch != b
  {
    if |x| > 0 {
      EraseMembers(x[1..], a, b, ch);
      assert x == [x[0]] + x[1..];
    }
  }

  /** One `re.subn("c{min,}", rep, s)` with `min >= 2`: the rewritten text
      and the number of runs replaced. */
  function Collapse(s: string, c: char, min: nat, rep: char): (r: Subn)
    requires min >= 2
    ensures |r.text| + r.count <= |s|
    ensures r.count == 0 ==> r.text == s
    ensures |s| > 0 ==> |r.text| > 0
    ensures |s| > 0 && (s[0] != c || rep == c) ==> r.text[0] == s[0]
    decreases |s|
  {
    if |s| == 0 then Subn([], 0)
    else if s[0] != c then
      var rest := Collapse(s[1..], c, min, rep);
      Subn([s[0]] + rest.text, rest.count)
    else
      var n := RunLen(s, c);
      var rest := Collapse(s[n..], c, min, rep);
      if n >= min then
        Subn([rep] + rest.text, 1 + rest.count)
      else
        assert s == s[..n] + s[n..];
        Subn(s[..n] + rest.text, rest.count)
  }

  /** A collapse only rewrites runs of `c` into `rep`: with every `c` and
      every `rep` erased, input and output read the same. */
  lemma {:induction false} CollapseErase(s: string, c: char, min: nat, rep: char)
    requires min >= 2
    ensures Erase(Collapse(s, c, min, rep).text, c, rep) == Erase(s, c, rep)
    decreases |s|
  {
    if |s| > 0 {
      if s[0] != c {
        CollapseErase(s[1..], c, min, rep);
        EraseStepOther(s, c, min, rep);
      } else {
        CollapseErase(s[RunLen(s, c)..], c, min, rep);
        EraseStepRun(s, c, min, rep);
      }
    }
  }

  lemma EraseCons(h: char, t: string, a: char, b: char)
    ensures Erase([h] + t, a, b) == (if h == a || h == b then [] else [h]) + Erase(t, a, b)
  {
    assert ([h] + t)[0] == h && ([h] + t)[1..] == t;
  }

  lemma EraseStepOther(s: string, c: char, min: nat, rep: char)
    requires min >= 2 && |s| > 0 && s[0] != c
    requires Erase(Collapse(s[1..], c, min, rep).text, c, rep) == Erase(s[1..], c, rep)
    ensures Erase(Collapse(s, c, min, rep).text, c, rep) == Erase(s, c, rep)
  {
    CollapseOther(s, c, min, rep);
    EraseCons(s[0], Collapse(s[1..], c, min, rep).text, c, rep);
  }

  lemma EraseStepRun(s: string, c: char, min: nat, rep: char)
    requires min >= 2 && |s| > 0 && s[0] == c
    requires var n := RunLen(s, c);
      Erase(Collapse(s[n..], c, min, rep).text, c, rep) == Erase(s[n..], c, rep)
    ensures Erase(Collapse(s, c, min, rep).text, c, rep) == Erase(s, c, rep)
  {
    var n := RunLen(s, c);
    var rest := Collapse(s[n..], c, min, rep).text;
    CollapseRun(s, c, min, rep);
    EraseSkip(s, n, c, rep);
    if n >= min {
      EraseCons(rep, rest, c, rep);
    } else {
      var run := s[..n];
      assert forall i :: 0 <= i < |run| ==> run[i] == c;
      EraseAppend(run, rest, c, rep);
      EraseNothingLeft(run, c, rep);
      assert Erase(run, c, rep) + Erase(rest, c, rep) == Erase(rest, c, rep);
    }
  }

  /** A leading stretch of `a`s and `b`s leaves nothing after erasing. */
  lemma EraseSkip(s: string, n: nat, a: char, b: char)
    requires n <= |s|
    requires forall i :: 0 <= i < n ==> s[i] == a || s[i] == b
    ensures Erase(s, a, b) == Erase(s[n..], a, b)
  {
    assert s == s[..n] + s[n..];
    EraseAppend(s[..n], s[n..], a, b);
    EraseNothingLeft(s[..n], a, b);
  }

  /** Reference count: the positions where a maximal run of at least `min`
      copies of `c` starts; `prevC` says whether the character just before
      `s` is a `c`. */
  function LongRuns(s: string, c: char, min: nat, prevC: bool): nat {
    if |s| == 0 then 0
    else (if !prevC && RunLen(s, c) >= min then 1 else 0) + LongRuns(s[1..], c, min, s[0] == c)
  }

  lemma LongRunsFresh(s: string, c: char, min: nat)
    requires min >= 1
    requires |s| == 0 || s[0] != c
    ensures LongRuns(s, c, min, true) == LongRuns(s, c, min, false)
  {
  }

  /** Inside a run no new run starts. */
  lemma {:induction false} LongRunsInside(s: string, c: char, min: nat, k: nat)
    requires min >= 1
    requires 1 <= k <= RunLen(s, c)
    ensures LongRuns(s[k..], c, min, true) == LongRuns(s[RunLen(s, c)..], c, min, false)
    decreases RunLen(s, c) - k
  {
    var n := RunLen(s, c);
    if k == n {
      LongRunsFresh(s[n..], c, min);
    } else {
      assert s[k..][0] == c && s[k..][1..] == s[k + 1..];
      LongRunsInside(s, c, min, k + 1);
    }
  }

  /** The number of matches `re.subn` reports is the number of maximal
      runs of at least `min` copies of `c`, not the number of characters. */
  lemma {:induction false} CollapseCountsRuns(s: string, c: char, min: nat, rep: char)
    requires min >= 2
    ensures Collapse(s, c, min, rep).count == LongRuns(s, c, min, false)
    decreases |s|
  {
    if |s| > 0 {
      if s[0] != c {
        CollapseCountsRuns(s[1..], c, min, rep);
      } else {
        var n := RunLen(s, c);
        CollapseCountsRuns(s[n..], c, min, rep);
        LongRunsInside(s, c, min, 1);
      }
    }
  }

  lemma {:induction false} RunLenPrefix(a: string, b: string, c: char)
    requires forall i :: 0 <= i < |a| ==> a[i] == c
    requires |b| == 0 || b[0] != c
    ensures RunLen(a + b, c) == |a|
  {
    if |a| > 0 {
      assert (a + b)[0] == c && (a + b)[1..] == a[1..] + b;
      RunLenPrefix(a[1..], b, c);
    } else {
      assert a + b == b;
    }
  }

  /** After one collapse no run of `min` copies of `c` is left. */
  lemma {:induction false} CollapseLeavesNoRun(s: string, c: char, min: nat, rep: char)
    requires min >= 2
    ensures Collapse(Collapse(s, c, min, rep).text, c, min, rep).count == 0
    decreases |s|
  {
    if |s| > 0 {
      if s[0] != c {
        var rt := Collapse(s[1..], c, min, rep).text;
        CollapseLeavesNoRun(s[1..], c, min, rep);
        assert ([s[0]] + rt)[0] == s[0] && ([s[0]] + rt)[1..] == rt;
      } else {
        var n := RunLen(s, c);
        var rt := Collapse(s[n..], c, min, rep).text;
        CollapseLeavesNoRun(s[n..], c, min, rep);
        assert |rt| == 0 || rt[0] != c;
        if n >= min {
          assert ([rep] + rt)[1..] == rt;
          if rep == c {
            RunLenPrefix([rep], rt, c);
          }
        } else {
          RunLenPrefix(s[..n], rt, c);
          assert (s[..n] + rt)[n..] == rt;
        }
      }
    }
  }

  lemma CollapseIdempotent(s: string, c: char, min: nat, rep: char)
    requires min >= 2
    ensures var once := Collapse(s, c, min, rep).text;
      Collapse(once, c, min, rep) == Subn(once, 0)
  {
    CollapseLeavesNoRun(s, c, min, rep);
  }

  /** No two neighbouring copies of `c`. */
  predicate NoDouble(s: string, c: char) {
    forall i :: 0 <= i < |s| - 1 ==> !(s[i] == c && s[i + 1] == c)
  }

  /** No three neighbouring copies of `c`. */
  predicate NoTriple(s: string, c: char) {
    forall i :: 0 <= i < |s| - 2 ==> !(s[i] == c && s[i + 1] == c && s[i + 2] == c)
  }

  /** A collapse of pairs finds nothing exactly when no two copies of `c` touch. */
  lemma {:induction false} PairRunsIffDouble(s: string, c: char, rep: char)
    ensures Collapse(s, c, 2, rep).count == 0 <==> NoDouble(s, c)
    decreases |s|
  {
    if |s| > 0 {
      if s[0] != c {
        PairRunsIffDouble(s[1..], c, rep);
        assert forall i :: 1 <= i < |s| ==> s[i] == s[1..][i - 1];
      } else {
        var n := RunLen(s, c);
        PairRunsIffDouble(s[n..], c, rep);
        if n == 1 {
          assert forall i :: 1 <= i < |s| ==> s[i] == s[1..][i - 1];
        } else {
          assert s[1] == c;
        }
      }
    }
  }

  lemma NoTripleShift(s: string, c: char, k: nat)
    requires k <= |s|
    requires NoTriple(s, c)
    ensures NoTriple(s[k..], c)
  {
    forall i | 0 <= i < |s[k..]| - 2
      ensures !(s[k..][i] == c && s[k..][i + 1] == c && s[k..][i + 2] == c)
    {
      assert s[k..][i] == s[i + k] && s[k..][i + 1] == s[i + k + 1] && s[k..][i + 2] == s[i + k + 2];
    }
  }

  /** A text starting with a run of fewer than three `c` has no triple
      exactly when the rest after that run has none. */
  lemma NoTripleAfterShortRun(s: string, c: char, k: nat)
    requires 1 <= k < 3 && k <= |s|
    requires forall i :: 0 <= i < k ==> s[i] == c
    requires k == |s| || s[k] != c
    requires NoTriple(s[k..], c)
    ensures NoTriple(s, c)
  {
    forall i | 0 <= i < |s| - 2 ensures !(s[i] == c && s[i + 1] == c && s[i + 2] == c) {
      if i >= k {
        assert s[k..][i - k] == s[i] && s[k..][i - k + 1] == s[i + 1] && s[k..][i - k + 2] == s[i + 2];
      }
    }
  }

  /** A collapse of triples finds nothing exactly when no three copies of `c` touch. */
  lemma {:induction false} TripleRunsIffTriple(s: string, c: char, rep: char)
    ensures Collapse(s, c, 3, rep).count == 0 <==> NoTriple(s, c)
    decreases |s|
  {
    if |s| > 0 {
      if s[0] != c {
        TripleRunsIffTriple(s[1..], c, rep);
        if NoTriple(s, c) {
          NoTripleShift(s, c, 1);
        }
        if NoTriple(s[1..], c) {
          forall i | 0 <= i < |s| - 2 ensures !(s[i] == c && s[i + 1] == c && s[i + 2] == c) {
            if i >= 1 {
              assert s[1..][i - 1] == s[i] && s[1..][i] == s[i + 1] && s[1..][i + 1] == s[i + 2];
            }
          }
        }
      } else {
        var n := RunLen(s, c);
        TripleRunsIffTriple(s[n..], c, rep);
        if n < 3 {
          if NoTriple(s, c) {
            NoTripleShift(s, c, n);
          }
          if NoTriple(s[n..], c) {
            NoTripleAfterShortRun(s, c, n);
          }
        } else {
          assert s[0] == c && s[1] == c && s[2] == c;
        }
      }
    }
  }

  /** A collapse of `c` leaves the runs of any other character alone. */
  lemma {:induction false} RunLenCollapse(s: string, c: char, min: nat, rep: char, d: char)
    requires min >= 2 && d != c && d != rep
    ensures RunLen(Collapse(s, c, min, rep).text, d) == RunLen(s, d)
    decreases |s|
  {
    if |s| > 0 && s[0] != c {
      var rt := Collapse(s[1..], c, min, rep).text;
      RunLenCollapse(s[1..], c, min, rep, d);
      assert ([s[0]] + rt)[1..] == rt;
    }
  }

  lemma {:induction false} LongRunsSkip(x: string, y: string, d: char, min: nat, p: bool)
    requires min >= 1 && |x| > 0
    requires forall i :: 0 <= i < |x| ==> x[i] != d
    ensures LongRuns(x + y, d, min, p) == LongRuns(y, d, min, false)
    decreases |x|
  {
    assert (x + y)[0] == x[0] && (x + y)[1..] == x[1..] + y;
    if |x| > 1 {
      LongRunsSkip(x[1..], y, d, min, false);
    } else {
      assert x[1..] + y == y;
    }
  }

  lemma {:induction false} LongRunsCollapse(s: string, c: char, min: nat, rep: char, d: char, min': nat, p: bool)
    requires min >= 2 && min' >= 1 && d != c && d != rep
    ensures LongRuns(Collapse(s, c, min, rep).text, d, min', p) == LongRuns(s, d, min', p)
    decreases |s|
  {
    if |s| > 0 {
      var out := Collapse(s, c, min, rep).text;
      if s[0] != c {
        var rt := Collapse(s[1..], c, min, rep).text;
        RunLenCollapse(s, c, min, rep, d);
        LongRunsCollapse(s[1..], c, min, rep, d, min', s[0] == d);
        assert out[1..] == rt;
      } else {
        var n := RunLen(s, c);
        var rt := Collapse(s[n..], c, min, rep).text;
        LongRunsCollapse(s[n..], c, min, rep, d, min', false);
        assert s == s[..n] + s[n..];
        LongRunsSkip(s[..n], s[n..], d, min', p);
        if n >= min {
          LongRunsSkip([rep], rt, d, min', p);
        } else {
          LongRunsSkip(s[..n], rt, d, min', p);
        }
      }
    }
  }

  lemma {:induction false} RunLenAppendLong(x: string, y: string, c: char)
    requires RunLen(x, c) < |x|
    ensures RunLen(x + y, c) == RunLen(x, c)
  {
    assert (x + y)[0] == x[0] && (x + y)[1..] == x[1..] + y;
    if x[0] == c {
      RunLenAppendLong(x[1..], y, c);
    }
  }

  /** One step of `Collapse` on a text that starts with a character other than `c`. */
  lemma CollapseOther(s: string, c: char, min: nat, rep: char)
    requires min >= 2 && |s| > 0 && s[0] != c
    ensures Collapse(s, c, min, rep).text == [s[0]] + Collapse(s[1..], c, min, rep).text
    ensures Collapse(s, c, min, rep).count == Collapse(s[1..], c, min, rep).count
  {
  }

  /** One step of `Collapse` on a text that starts with a run of `c`. */
  lemma CollapseRun(s: string, c: char, min: nat, rep: char)
    requires min >= 2 && |s| > 0 && s[0] == c
    ensures var n := RunLen(s, c);
      Collapse(s, c, min, rep).text == (if n >= min then [rep] else s[..n]) + Collapse(s[n..], c, min, rep).text
    ensures var n := RunLen(s, c);
      Collapse(s, c, min, rep).count == (if n >= min then 1 else 0) + Collapse(s[n..], c, min, rep).count
  {
  }

  lemma AppendAssoc(a: string, b: string, c: string)
    ensures a + (b + c) == (a + b) + c
  {
  }

  /** The seam lemma's step when `x` starts with another character. */
  lemma AppendStepOther(x: string, y: string, c: char, min: nat, rep: char)
    requires min >= 2 && |x| > 0 && x[0] != c
    requires Collapse(x[1..] + y, c, min, rep).text == Collapse(x[1..], c, min, rep).text + Collapse(y, c, min, rep).text
    requires Collapse(x[1..] + y, c, min, rep).count == Collapse(x[1..], c, min, rep).count + Collapse(y, c, min, rep).count
    ensures Collapse(x + y, c, min, rep).text == Collapse(x, c, min, rep).text + Collapse(y, c, min, rep).text
    ensures Collapse(x + y, c, min, rep).count == Collapse(x, c, min, rep).count + Collapse(y, c, min, rep).count
  {
    var h, t := x[0], x[1..];
    var a, b := Collapse(t, c, min, rep), Collapse(y, c, min, rep);
    ConsSplit(x, y);
    CollapseCons(h, t + y, c, min, rep);
    CollapseCons(h, t, c, min, rep);
    AppendAssoc([h], a.text, b.text);
  }

  lemma ConsSplit(x: string, y: string)
    requires |x| > 0
    ensures x == [x[0]] + x[1..]
    ensures x + y == [x[0]] + (x[1..] + y)
  {
  }

  lemma CutSplit(x: string, y: string, n: nat)
    requires n < |x|
    ensures (x + y)[0] == x[0]
    ensures (x + y)[..n] == x[..n]
    ensures (x + y)[n..] == x[n..] + y
  {
  }

  lemma CollapseCons(h: char, t: string, c: char, min: nat, rep: char)
    requires min >= 2 && h != c
    ensures Collapse([h] + t, c, min, rep).text == [h] + Collapse(t, c, min, rep).text
    ensures Collapse([h] + t, c, min, rep).count == Collapse(t, c, min, rep).count
  {
    assert ([h] + t)[0] == h && ([h] + t)[1..] == t;
  }

  /** The seam lemma's step when `x` starts with a run of `c` that ends inside `x`. */
  lemma AppendStepRun(x: string, y: string, c: char, min: nat, rep: char)
    requires min >= 2 && |x| > 0 && x[0] == c && RunLen(x, c) < |x|
    requires var n := RunLen(x, c);
      Collapse(x[n..] + y, c, min, rep).text == Collapse(x[n..], c, min, rep).text + Collapse(y, c, min, rep).text
    requires var n := RunLen(x, c);
      Collapse(x[n..] + y, c, min, rep).count == Collapse(x[n..], c, min, rep).count + Collapse(y, c, min, rep).count
    ensures Collapse(x + y, c, min, rep).text == Collapse(x, c, min, rep).text + Collapse(y, c, min, rep).text
    ensures Collapse(x + y, c, min, rep).count == Collapse(x, c, min, rep).count + Collapse(y, c, min, rep).count
  {
    var n := RunLen(x, c);
    var head := if n >= min then [rep] else x[..n];
    var a, b := Collapse(x[n..], c, min, rep), Collapse(y, c, min, rep);
    RunLenAppendLong(x, y, c);
    CutSplit(x, y, n);
    CollapseRun(x + y, c, min, rep);
    CollapseRun(x, c, min, rep);
    AppendAssoc(head, a.text, b.text);
  }

  /** No run of `c` straddles the seam between `x` and `y`: one side is
      empty, or `x` does not end in `c`, or `y` does not start with it. */
  predicate Seam(x: string, y: string, c: char) {
    |x| == 0 || |y| == 0 || x[|x| - 1] != c || y[0] != c
  }

  /** The seam lemma's step when all of `x` is one run of `c`. */
  lemma WholeRunAppend(x: string, y: string, c: char, min: nat, rep: char)
    requires min >= 2 && |x| > 0 && forall i :: 0 <= i < |x| ==> x[i] == c
    requires |y| == 0 || y[0] != c
    ensures Collapse(x + y, c, min, rep).text == Collapse(x, c, min, rep).text + Collapse(y, c, min, rep).text
    ensures Collapse(x + y, c, min, rep).count == Collapse(x, c, min, rep).count + Collapse(y, c, min, rep).count
  {
    var e: string := [];
    assert x + e == x;
    if |x| >= min {
      LongRunCollapsed(x, y, c, min, rep);
      LongRunCollapsed(x, e, c, min, rep);
    } else {
      ShortRunKept(x, y, c, min, rep);
      ShortRunKept(x, e, c, min, rep);
    }
  }

  /** When no run straddles the seam, `x + y` collapses piecewise. */
  lemma {:induction false} CollapseAppend(x: string, y: string, c: char, min: nat, rep: char)
    requires min >= 2
    requires Seam(x, y, c)
    ensures Collapse(x + y, c, min, rep).text == Collapse(x, c, min, rep).text + Collapse(y, c, min, rep).text
    ensures Collapse(x + y, c, min, rep).count == Collapse(x, c, min, rep).count + Collapse(y, c, min, rep).count
    decreases |x|
  {
    if |x| == 0 {
      assert x + y == y;
    } else if |y| == 0 {
      assert x + y == x;
    } else if x[0] != c {
      assert |x| > 1 ==> x[1..][|x| - 2] == x[|x| - 1];
      CollapseAppend(x[1..], y, c, min, rep);
      AppendStepOther(x, y, c, min, rep);
    } else if RunLen(x, c) == |x| {
      WholeRunAppend(x, y, c, min, rep);
    } else {
      var n := RunLen(x, c);
      assert x[n..][|x| - n - 1] == x[|x| - 1];
      CollapseAppend(x[n..], y, c, min, rep);
      AppendStepRun(x, y, c, min, rep);
    }
  }

  /** A run of at least `min` copies of `c` at the front becomes one `rep`. */
  lemma LongRunCollapsed(d: string, y: string, c: char, min: nat, rep: char)
    requires min >= 2 && |d| >= min
    requires forall i :: 0 <= i < |d| ==> d[i] == c
    requires |y| == 0 || y[0] != c
    ensures var cy := Collapse(y, c, min, rep);
      Collapse(d + y, c, min, rep) == Subn([rep] + cy.text, 1 + cy.count)
  {
    RunLenPrefix(d, y, c);
    assert (d + y)[0] == c;
    assert (d + y)[|d|..] == y;
  }

  /** A text holding no `c` is left as it is. */
  lemma {:induction false} CollapseNone(s: string, c: char, min: nat, rep: char)
    requires min >= 2 && forall i :: 0 <= i < |s| ==> s[i] != c
    ensures Collapse(s, c, min, rep) == Subn(s, 0)
    decreases |s|
  {
    if |s| > 0 {
      CollapseNone(s[1..], c, min, rep);
      CollapseOther(s, c, min, rep);
      assert s == [s[0]] + s[1..];
    }
  }

  /** When neither `c` nor `rep` is `d`, a text that does not end in `d`
      still does not after collapsing. */
  lemma {:induction false} CollapseLast(s: string, c: char, min: nat, rep: char, d: char)
    requires min >= 2 && c != d && rep != d
    requires |s| > 0 && s[|s| - 1] != d
    ensures var t := Collapse(s, c, min, rep).text; |t| > 0 && t[|t| - 1] != d
    decreases |s|
  {
    if s[0] != c {
      CollapseOther(s, c, min, rep);
      if |s| > 1 {
        assert s[1..][|s| - 2] == s[|s| - 1];
        CollapseLast(s[1..], c, min, rep, d);
      }
    } else {
      var n := RunLen(s, c);
      CollapseRun(s, c, min, rep);
      if n < |s| {
        assert s[n..][|s| - n - 1] == s[|s| - 1];
        CollapseLast(s[n..], c, min, rep, d);
      } else {
        assert s[n..] == [];
      }
    }
  }

  /** A run shorter than `min` at the front is copied unchanged. */
  lemma ShortRunKept(d: string, y: string, c: char, min: nat, rep: char)
    requires min >= 2 && 1 <= |d| < min
    requires forall i :: 0 <= i < |d| ==> d[i] == c
    requires |y| == 0 || y[0] != c
    ensures var cy := Collapse(y, c, min, rep);
      Collapse(d + y, c, min, rep) == Subn(d + cy.text, cy.count)
  {
    RunLenPrefix(d, y, c);
    assert (d + y)[0] == c;
    assert (d + y)[..|d|] == d && (d + y)[|d|..] == y;
  }

  /** A maximal run of `c` in the middle of a text becomes one `c`, with
      `min == 2` and `rep == c` as for `؟{2,}` and `!{2,}`; a lone `c` is
      kept. */
  lemma RunBecomesOne(x: string, d: string, y: string, c: char)
    requires |x| == 0 || x[|x| - 1] != c
    requires |d| >= 1 && forall i :: 0 <= i < |d| ==> d[i] == c
    requires |y| == 0 || y[0] != c
    ensures Collapse(x + d + y, c, 2, c).text == Collapse(x, c, 2, c).text + [c] + Collapse(y, c, 2, c).text
  {
    Assoc3(x, d, y);
    CollapseAppend(x, d + y, c, 2, c);
    if |d| >= 2 {
      LongRunCollapsed(d, y, c, 2, c);
    } else {
      Single(d);
      ShortRunKept(d, y, c, 2, c);
    }
    AppendAssoc(Collapse(x, c, 2, c).text, [c], Collapse(y, c, 2, c).text);
  }

  lemma Assoc3(x: string, w: string, y: string)
    ensures x + w + y == x + (w + y)
  {
  }

  lemma Single(d: string)
    requires |d| == 1
    ensures d == [d[0]]
  {
  }
  /** A stretch holding no `c` is copied through, and the text on either
      side collapses on its own. */
  lemma OtherPassesBy(x: string, d: string, y: string, c: char, min: nat, rep: char)
    requires min >= 2 && |d| >= 1 && forall i :: 0 <= i < |d| ==> d[i] != c
    ensures Collapse(x + d + y, c, min, rep).text == Collapse(x, c, min, rep).text + d + Collapse(y, c, min, rep).text
  {
    Assoc3(x, d, y);
    HeadOf(d, y);
    CollapseAppend(x, d + y, c, min, rep);
    CollapseAppend(d, y, c, min, rep);
    CollapseNone(d, c, min, rep);
    AppendAssoc(Collapse(x, c, min, rep).text, d, Collapse(y, c, min, rep).text);
  }

  lemma HeadOf(d: string, y: string)
    requires |d| > 0
    ensures (d + y)[0] == d[0]
  {
  }}
