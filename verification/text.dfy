/** Text helpers shared by the rules: one-for-one character maps, counts,
    whitespace runs, and the "only whitespace was deleted" relation. */
module Text {
  import opened Chars

  /** What Python's `re.subn` returns: the rewritten text and the number of matches. */
  datatype Subn = Subn(text: string, count: nat)

  /** Applies `f` to every character. */
  function MapChars(s: string, f: char -> char): (r: string)
    ensures |r| == |s|
    ensures forall i :: 0 <= i < |s| ==> r[i] == f(s[i])
  {
    if |s| == 0 then [] else [f(s[0])] + MapChars(s[1..], f)
  }

  /** `str.replace` with one-character arguments. */
  function Replace(s: string, a: char, b: char): (r: string)
    ensures |r| == |s|
    ensures forall i :: 0 <= i < |s| ==> r[i] == (if s[i] == a then b else s[i])
  {
    if |s| == 0 then [] else [if s[0] == a then b else s[0]] + Replace(s[1..], a, b)
  }

  /** `str.count` with a one-character argument. */
  function Occ(s: string, c: char): nat {
    if |s| == 0 then 0 else (if s[0] == c then 1 else 0) + Occ(s[1..], c)
  }

  /** Number of characters of `s` in the class `p`. */
  function CountIf(s: string, p: char -> bool): nat {
    if |s| == 0 then 0 else (if p(s[0]) then 1 else 0) + CountIf(s[1..], p)
  }

  /** Number of positions where `a` holds a character of class `p` and
      `b` holds a different character: how many such characters a
      length-preserving rewrite from `a` to `b` actually altered. */
  function Changed(a: string, b: string, p: char -> bool): nat
    requires |a| == |b|
  {
    if |a| == 0 then 0
    else (if p(a[0]) && a[0] != b[0] then 1 else 0) + Changed(a[1..], b[1..], p)
  }

  lemma {:induction false} ChangedAll(a: string, b: string, p: char -> bool)
    requires |a| == |b|
    requires forall i :: 0 <= i < |a| && p(a[i]) ==> b[i] != a[i]
    ensures Changed(a, b, p) == CountIf(a, p)
  {
    if |a| > 0 {
      assert forall i :: 0 <= i < |a| - 1 && p(a[1..][i]) ==> b[1..][i] != a[1..][i] by {
        forall i | 0 <= i < |a| - 1 && p(a[1..][i]) ensures b[1..][i] != a[1..][i] {
          assert a[1..][i] == a[i + 1] && b[1..][i] == b[i + 1];
        }
      }
      ChangedAll(a[1..], b[1..], p);
    }
  }

  lemma {:induction false} OccIsCountIf(s: string, c: char, p: char -> bool)
    requires forall x :: p(x) <==> x == c
    ensures Occ(s, c) == CountIf(s, p)
  {
    if |s| > 0 {
      OccIsCountIf(s[1..], c, p);
    }
  }

  /** Replacing `a` by `b` does not change how often a third character occurs. */
  lemma {:induction false} OccReplace(s: string, a: char, b: char, x: char)
    requires x != a && x != b
    ensures Occ(Replace(s, a, b), x) == Occ(s, x)
  {
    if |s| > 0 {
      assert Replace(s, a, b)[1..] == Replace(s[1..], a, b);
      OccReplace(s[1..], a, b, x);
    }
  }

  lemma {:induction false} OccAbsent(s: string, c: char)
    requires forall i :: 0 <= i < |s| ==> s[i] != c
    ensures Occ(s, c) == 0
  {
    if |s| > 0 {
      OccAbsent(s[1..], c);
    }
  }

  lemma {:induction false} CountIfAbsent(s: string, p: char -> bool)
    requires forall i :: 0 <= i < |s| ==> !p(s[i])
    ensures CountIf(s, p) == 0
  {
    if |s| > 0 {
      CountIfAbsent(s[1..], p);
    }
  }

  lemma {:induction false} CountIfAppend(a: string, b: string, p: char -> bool)
    ensures CountIf(a + b, p) == CountIf(a, p) + CountIf(b, p)
  {
    if |a| > 0 {
      assert (a + b)[0] == a[0] && (a + b)[1..] == a[1..] + b;
      CountIfAppend(a[1..], b, p);
    } else {
      assert a + b == b;
    }
  }

  lemma {:induction false} OccAppend(a: string, b: string, c: char)
    ensures Occ(a + b, c) == Occ(a, c) + Occ(b, c)
  {
    if |a| > 0 {
      assert (a + b)[0] == a[0] && (a + b)[1..] == a[1..] + b;
      OccAppend(a[1..], b, c);
    } else {
      assert a + b == b;
    }
  }

  /** Length of the whitespace run at the front of `s`. */
  function SpaceRun(s: string): (n: nat)
    ensures n <= |s|
    ensures forall i :: 0 <= i < n ==> IsSpace(s[i])
    ensures n < |s| ==> !IsSpace(s[n])
  {
    if |s| == 0 || !IsSpace(s[0]) then 0 else 1 + SpaceRun(s[1..])
  }

  /** `s` with every whitespace character removed. */
  function NonSpace(s: string): (r: string)
    ensures |r| <= |s|
  {
    if |s| == 0 then [] else (if IsSpace(s[0]) then [] else [s[0]]) + NonSpace(s[1..])
  }

  lemma {:induction false} NonSpaceAppend(a: string, b: string)
    ensures NonSpace(a + b) == NonSpace(a) + NonSpace(b)
  {
    if |a| > 0 {
      assert (a + b)[0] == a[0] && (a + b)[1..] == a[1..] + b;
      NonSpaceAppend(a[1..], b);
    } else {
      assert a + b == b;
    }
  }

  lemma {:induction false} NonSpaceOfSpaces(s: string)
    requires forall i :: 0 <= i < |s| ==> IsSpace(s[i])
    ensures NonSpace(s) == []
  {
    if |s| > 0 {
      NonSpaceOfSpaces(s[1..]);
    }
  }

  /** Dropping a leading whitespace run does not change the visible text. */
  lemma NonSpaceSkip(s: string, k: nat)
    requires k <= |s|
    requires forall i :: 0 <= i < k ==> IsSpace(s[i])
    ensures NonSpace(s) == NonSpace(s[k..])
  {
    assert s == s[..k] + s[k..];
    NonSpaceAppend(s[..k], s[k..]);
    NonSpaceOfSpaces(s[..k]);
  }

  /** `a` is obtained from `b` by deleting characters (greedy matching). */
  predicate IsSubseq(a: string, b: string)
    decreases |b|
  {
    if |a| == 0 then true
    else if |b| == 0 then false
    else if a[0] == b[0] then IsSubseq(a[1..], b[1..])
    else IsSubseq(a, b[1..])
  }

  lemma {:induction false} SubseqDropHead(a: string, b: string)
    requires |a| > 0 && IsSubseq(a, b)
    ensures IsSubseq(a[1..], b)
    decreases |b|, 1
  {
    if a[0] == b[0] {
      SubseqExtend(a[1..], b);
    } else {
      SubseqDropHead(a, b[1..]);
      SubseqExtend(a[1..], b);
    }
  }

  /** A subsequence of a suffix of `b` is a subsequence of `b`. */
  lemma {:induction false} SubseqExtend(a: string, b: string)
    requires |b| > 0 && IsSubseq(a, b[1..])
    ensures IsSubseq(a, b)
    decreases |b|, 0
  {
    if |a| > 0 && a[0] == b[0] {
      SubseqDropHead(a, b[1..]);
    }
  }

  lemma {:induction false} SubseqSuffix(a: string, b: string, k: nat)
    requires k <= |b| && IsSubseq(a, b[k..])
    ensures IsSubseq(a, b)
    decreases k
  {
    if k > 0 {
      assert b[k..] == b[1..][k - 1..];
      SubseqSuffix(a, b[1..], k - 1);
      SubseqExtend(a, b);
    }
  }

  lemma {:induction false} SubseqTransitive(a: string, b: string, c: string)
    requires IsSubseq(a, b) && IsSubseq(b, c)
    ensures IsSubseq(a, c)
    decreases |c|
  {
    if |a| > 0 {
      if b[0] == c[0] {
        if a[0] == b[0] {
          SubseqTransitive(a[1..], b[1..], c[1..]);
        } else {
          SubseqTransitive(a, b[1..], c[1..]);
          SubseqExtend(a, c);
        }
      } else {
        SubseqTransitive(a, b, c[1..]);
        SubseqExtend(a, c);
      }
    }
  }

  lemma {:induction false} SubseqReflexive(a: string)
    ensures IsSubseq(a, a)
  {
    if |a| > 0 {
      SubseqReflexive(a[1..]);
    }
  }

  /** `r` is `s` with some whitespace characters deleted and nothing else changed. */
  predicate OnlySpacesDeleted(s: string, r: string) {
    IsSubseq(r, s) && NonSpace(r) == NonSpace(s)
  }

  lemma OnlySpacesDeletedTransitive(a: string, b: string, c: string)
    requires OnlySpacesDeleted(a, b) && OnlySpacesDeleted(b, c)
    ensures OnlySpacesDeleted(a, c)
  {
    SubseqTransitive(c, b, a);
  }
}
