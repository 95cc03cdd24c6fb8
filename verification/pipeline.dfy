/** fix_all (PAKNEVIS.py:375-394): the stages whose option is on, in a
    fixed order, each rewriting the previous one's output and adding to
    the report. The five stages whose matching is not modelled (fix_he_ye,
    fix_me_nemi, fix_prefix_verbs, fix_suffixes, fix_dict) are parameters. */
module Pipeline {
  import opened Chars
  import opened Counters
  import Substitution
  import Punctuation
  import Quotes
  import Whitespace

  datatype Stage =
    | FixKY | FixNumbersEn | FixNumbersAr | FixPunct | FixQuotes
    | FixHeYe | FixMeNemi | FixPrefixVerbs | FixSuffixes | FixDict
    | FixSpaces | FixSpaceBeforePunct | FixExtraSpaces | FixEllipsis | FixFakeHyphens

  /** The order in which fix_all appends the stages. */
  const ORDER: seq<Stage> := [
    FixKY, FixNumbersEn, FixNumbersAr, FixPunct, FixQuotes,
    FixHeYe, FixMeNemi, FixPrefixVerbs, FixSuffixes, FixDict,
    FixSpaces, FixSpaceBeforePunct, FixExtraSpaces, FixEllipsis, FixFakeHyphens]

  /** The option key fix_all looks up for a stage. */
  function Key(s: Stage): string {
    match s
    case FixKY => "fix_k_y"
    case FixNumbersEn => "fix_numbers_en"
    case FixNumbersAr => "fix_numbers_ar"
    case FixPunct => "fix_punct"
    case FixQuotes => "fix_quotes"
    case FixHeYe => "fix_he_ye"
    case FixMeNemi => "fix_me_nemi"
    case FixPrefixVerbs => "fix_prefix_verbs"
    case FixSuffixes => "fix_suffixes"
    case FixDict => "fix_dict"
    case FixSpaces => "fix_spaces"
    case FixSpaceBeforePunct => "fix_space_before_punct"
    case FixExtraSpaces => "fix_extra_spaces"
    case FixEllipsis => "fix_ellipsis"
    case FixFakeHyphens => "fix_fake_hyphens"
  }

  /** Position of a stage in ORDER. */
  function Rank(s: Stage): (k: nat)
    ensures k < |ORDER| && ORDER[k] == s
  {
    match s
    case FixKY => 0
    case FixNumbersEn => 1
    case FixNumbersAr => 2
    case FixPunct => 3
    case FixQuotes => 4
    case FixHeYe => 5
    case FixMeNemi => 6
    case FixPrefixVerbs => 7
    case FixSuffixes => 8
    case FixDict => 9
    case FixSpaces => 10
    case FixSpaceBeforePunct => 11
    case FixExtraSpaces => 12
    case FixEllipsis => 13
    case FixFakeHyphens => 14
  }

  type Options = map<string, bool>

  /** `options.get(key, True)`. */
  predicate Enabled(o: Options, s: Stage) {
    if Key(s) in o then o[Key(s)] else true
  }

  /** The defaults load_config starts from (PAKNEVIS.py:55-61): thirteen
      keys on, fix_dict off, and no entry for fix_space_before_punct. */
  const LOAD_CONFIG_DEFAULTS: Options := map[
    "fix_k_y" := true, "fix_punct" := true, "fix_quotes" := true,
    "fix_numbers_en" := true, "fix_numbers_ar" := true, "fix_he_ye" := true,
    "fix_me_nemi" := true, "fix_prefix_verbs" := true, "fix_suffixes" := true,
    "fix_spaces" := true, "fix_extra_spaces" := true, "fix_ellipsis" := true,
    "fix_fake_hyphens" := true, "fix_dict" := false]

  /** The five rules whose matching is not modelled, as functions from the
      text to its rewrite. */
  datatype Scanners = Scanners(
    heYe: string -> Rewrite, meNemi: string -> Rewrite, prefixVerbs: string -> Rewrite,
    suffixes: string -> Rewrite, dict: string -> Rewrite)

  function Apply(x: Scanners, s: Stage, t: string): Rewrite {
    match s
    case FixKY => Substitution.FixKY(t)
    case FixNumbersEn => Substitution.FixNumbersEn(t)
    case FixNumbersAr => Substitution.FixNumbersAr(t)
    case FixPunct => Punctuation.FixPunct(t)
    case FixQuotes => Quotes.FixQuotes(t)
    case FixHeYe => x.heYe(t)
    case FixMeNemi => x.meNemi(t)
    case FixPrefixVerbs => x.prefixVerbs(t)
    case FixSuffixes => x.suffixes(t)
    case FixDict => x.dict(t)
    case FixSpaces => Whitespace.FixSpaces(t)
    case FixSpaceBeforePunct => Whitespace.FixSpaceBeforePunct(t)
    case FixExtraSpaces => Whitespace.FixExtraSpaces(t)
    case FixEllipsis => Punctuation.FixEllipsis(t)
    case FixFakeHyphens => Substitution.FixFakeHyphens(t)
  }

  /** One stage: its text replaces the state's, its delta is added to the report. */
  function Step(x: Scanners, s: Stage, st: State): (r: State)
    ensures Grows(st.counts, r.counts)
  {
    var w := Apply(x, s, st.text);
    State(w.text, Add(st.counts, w.delta))
  }

  /** The `pipeline` list: the stages of `stages` whose option is on, in order. */
  function Select(stages: seq<Stage>, o: Options): (r: seq<Stage>)
    ensures |r| <= |stages|
  {
    if |stages| == 0 then []
    else (if Enabled(o, stages[0]) then [stages[0]] else []) + Select(stages[1..], o)
  }

  /** A stage is in the pipeline exactly when it is listed and its option is on. */
  lemma {:induction false} SelectMembers(stages: seq<Stage>, o: Options)
    ensures forall s :: s in Select(stages, o) <==> s in stages && Enabled(o, s)
    decreases |stages|
  {
    if |stages| > 0 {
      SelectMembers(stages[1..], o);
      assert stages == [stages[0]] + stages[1..];
    }
  }

  /** `for func in pipeline: text = func(text, report_counts)`. */
  function Run(x: Scanners, stages: seq<Stage>, st: State): (r: State)
    ensures Grows(st.counts, r.counts)
    decreases |stages|
  {
    if |stages| == 0 then st else Run(x, stages[1..], Step(x, stages[0], st))
  }

  /** fix_all, with the report as it stood before the call. */
  function FixAll(x: Scanners, t: string, o: Options, counts: Counters): (r: State)
    ensures Grows(counts, r.counts)
  {
    Run(x, Select(ORDER, o), State(t, counts))
  }

  // ----- the reference: every stage in place, a disabled one as the identity -----

  function Guarded(x: Scanners, o: Options, s: Stage, st: State): (r: State) {
    if Enabled(o, s) then Step(x, s, st) else st
  }

  function RunGuarded(x: Scanners, o: Options, stages: seq<Stage>, st: State): State
    decreases |stages|
  {
    if |stages| == 0 then st else RunGuarded(x, o, stages[1..], Guarded(x, o, stages[0], st))
  }

  /** Building the list of enabled stages and running it is the same as
      running every stage with the disabled ones replaced by the identity. */
  lemma {:induction false} SelectThenRun(x: Scanners, o: Options, stages: seq<Stage>, st: State)
    ensures Run(x, Select(stages, o), st) == RunGuarded(x, o, stages, st)
    decreases |stages|
  {
    if |stages| > 0 {
      var s := stages[0];
      SelectThenRun(x, o, stages[1..], Guarded(x, o, s, st));
      if Enabled(o, s) {
        assert Select(stages, o) == [s] + Select(stages[1..], o);
        assert ([s] + Select(stages[1..], o))[1..] == Select(stages[1..], o);
      } else {
        assert Select(stages, o) == Select(stages[1..], o);
      }
    }
  }

  lemma FixAllIsGuarded(x: Scanners, t: string, o: Options, counts: Counters)
    ensures FixAll(x, t, o, counts) == RunGuarded(x, o, ORDER, State(t, counts))
  {
    SelectThenRun(x, o, ORDER, State(t, counts));
  }

  // ----- properties of fix_all -----

  /** Stages listed in strictly increasing position of ORDER. */
  predicate Ascending(ss: seq<Stage>) {
    forall i, j :: 0 <= i < j < |ss| ==> Rank(ss[i]) < Rank(ss[j])
  }

  lemma OrderAscending()
    ensures Ascending(ORDER)
  {
    forall i | 0 <= i < |ORDER| ensures Rank(ORDER[i]) == i {
    }
  }

  lemma ConsAscending(h: Stage, rest: seq<Stage>)
    requires Ascending(rest)
    requires forall e :: e in rest ==> Rank(h) < Rank(e)
    ensures Ascending([h] + rest)
  {
    var p := [h] + rest;
    forall i, j | 0 <= i < j < |p| ensures Rank(p[i]) < Rank(p[j]) {
      assert p[j] == rest[j - 1] && rest[j - 1] in rest;
      if i > 0 {
        assert p[i] == rest[i - 1];
      }
    }
  }

  lemma TailAscending(stages: seq<Stage>)
    requires |stages| > 0 && Ascending(stages)
    ensures Ascending(stages[1..])
    ensures forall e :: e in stages[1..] ==> Rank(stages[0]) < Rank(e)
  {
    var tail := stages[1..];
    forall i, j | 0 <= i < j < |tail| ensures Rank(tail[i]) < Rank(tail[j]) {
      assert tail[i] == stages[i + 1] && tail[j] == stages[j + 1];
    }
    forall e | e in tail ensures Rank(stages[0]) < Rank(e) {
      var k :| 0 <= k < |tail| && tail[k] == e;
      assert stages[k + 1] == e;
    }
  }

  /** Filtering keeps the relative order of the stages it keeps. */
  lemma {:induction false} SelectAscending(stages: seq<Stage>, o: Options)
    requires Ascending(stages)
    ensures Ascending(Select(stages, o))
    decreases |stages|
  {
    if |stages| > 0 {
      TailAscending(stages);
      SelectAscending(stages[1..], o);
      SelectMembers(stages[1..], o);
      if Enabled(o, stages[0]) {
        ConsAscending(stages[0], Select(stages[1..], o));
      }
    }
  }

  /** The enabled stages run in the order of ORDER. */
  lemma SelectKeepsOrder(o: Options)
    ensures Ascending(Select(ORDER, o))
  {
    OrderAscending();
    SelectAscending(ORDER, o);
  }

  /** A key missing from the options counts as on. */
  lemma MissingKeyIsOn(x: Scanners, t: string, o: Options, counts: Counters, s: Stage)
    requires Key(s) !in o
    ensures FixAll(x, t, o, counts) == FixAll(x, t, o[Key(s) := true], counts)
  {
    SameSelection(ORDER, o, o[Key(s) := true]);
  }

  lemma {:induction false} SameSelection(stages: seq<Stage>, o: Options, o': Options)
    requires forall s :: Enabled(o, s) == Enabled(o', s)
    ensures Select(stages, o) == Select(stages, o')
    decreases |stages|
  {
    if |stages| > 0 {
      SameSelection(stages[1..], o, o');
    }
  }

  /** A stage whose option is set to false is skipped: fix_all runs as if
      the stage were not in its list at all. */
  lemma DisabledIsSkipped(x: Scanners, t: string, o: Options, counts: Counters, s: Stage)
    requires Key(s) in o && !o[Key(s)]
    ensures var k := Rank(s);
      FixAll(x, t, o, counts) == Run(x, Select(ORDER[..k] + ORDER[k + 1..], o), State(t, counts))
  {
    var k := Rank(s);
    SkipDisabled(ORDER, k, o);
  }

  /** Dropping a disabled stage from the list does not change the selection. */
  lemma SkipDisabled(stages: seq<Stage>, k: nat, o: Options)
    requires k < |stages| && !Enabled(o, stages[k])
    ensures Select(stages, o) == Select(stages[..k] + stages[k + 1..], o)
  {
    var a, b := stages[..k], stages[k + 1..];
    assert stages == a + [stages[k]] + b;
    SelectAppend(a + [stages[k]], b, o);
    SelectAppend(a, [stages[k]], o);
    SelectAppend(a, b, o);
    assert Select([stages[k]], o) == [];
  }
  lemma SelectNone(stages: seq<Stage>, o: Options)
    requires forall s :: !Enabled(o, s)
    ensures Select(stages, o) == []
    decreases |stages|
  {
    if |stages| > 0 {
      SelectNone(stages[1..], o);
    }
  }

  /** With every option off, fix_all changes nothing. */
  lemma AllOffIsIdentity(x: Scanners, t: string, o: Options, counts: Counters)
    requires forall s :: Key(s) in o && !o[Key(s)]
    ensures FixAll(x, t, o, counts) == State(t, counts)
  {
    SelectNone(ORDER, o);
  }

  lemma SelectAll(stages: seq<Stage>, o: Options)
    requires forall i :: 0 <= i < |stages| ==> Enabled(o, stages[i])
    ensures Select(stages, o) == stages
    decreases |stages|
  {
    if |stages| > 0 {
      SelectAll(stages[1..], o);
    }
  }

  lemma {:induction false} SelectAppend(a: seq<Stage>, b: seq<Stage>, o: Options)
    ensures Select(a + b, o) == Select(a, o) + Select(b, o)
    decreases |a|
  {
    if |a| > 0 {
      assert (a + b)[1..] == a[1..] + b;
      SelectAppend(a[1..], b, o);
    } else {
      assert a + b == b;
    }
  }

  /** load_config's defaults switch off fix_dict and nothing else. */
  lemma DefaultsEnabled(s: Stage)
    ensures Enabled(LOAD_CONFIG_DEFAULTS, s) <==> s != FixDict
  {
    match s
    case FixDict =>
    case FixSpaceBeforePunct =>
      assert Key(s) !in LOAD_CONFIG_DEFAULTS;
    case _ =>
  }

  /** Called with no options, fix_all runs all fifteen stages, fix_dict
      included. */
  lemma NoOptionsSelectsAll()
    ensures Select(ORDER, map[]) == ORDER
  {
    SelectAll(ORDER, map[]);
  }

  lemma {:induction false} SelectDropsOne(a: seq<Stage>, d: Stage, b: seq<Stage>, o: Options)
    requires !Enabled(o, d)
    requires forall i :: 0 <= i < |a| ==> Enabled(o, a[i])
    requires forall i :: 0 <= i < |b| ==> Enabled(o, b[i])
    ensures Select(a + [d] + b, o) == a + b
  {
    SelectAppend(a + [d], b, o);
    SelectAppend(a, [d], o);
    SelectAll(a, o);
    SelectAll(b, o);
    assert Select([d], o) == [];
  }

  lemma {:induction false} SelectAllButDict(o: Options)
    requires forall s :: Enabled(o, s) <==> s != FixDict
    ensures Select(ORDER, o) == ORDER[..9] + ORDER[10..]
  {
    var a, b := ORDER[..9], ORDER[10..];
    assert ORDER == a + [FixDict] + b;
    forall i | 0 <= i < |ORDER| ensures Rank(ORDER[i]) == i {
    }
    forall i | 0 <= i < |a| ensures Enabled(o, a[i]) {
      assert a[i] == ORDER[i];
    }
    forall i | 0 <= i < |b| ensures Enabled(o, b[i]) {
      assert b[i] == ORDER[i + 10];
    }
    SelectDropsOne(a, FixDict, b, o);
  }

  /** From load_config's defaults fix_all runs every stage but fix_dict. */
  lemma DefaultsSelectAllButDict()
    ensures Select(ORDER, LOAD_CONFIG_DEFAULTS) == ORDER[..9] + ORDER[10..]
  {
    forall s ensures Enabled(LOAD_CONFIG_DEFAULTS, s) <==> s != FixDict {
      DefaultsEnabled(s);
    }
    SelectAllButDict(LOAD_CONFIG_DEFAULTS);
  }

  /** Whatever runs before it, an enabled fix_fake_hyphens as the last
      stage leaves no character it maps in the text. */
  lemma {:induction false} LastStageCleans(x: Scanners, o: Options, stages: seq<Stage>, st: State)
    requires Enabled(o, FixFakeHyphens)
    requires |stages| > 0 && stages[|stages| - 1] == FixFakeHyphens
    ensures var r := RunGuarded(x, o, stages, st).text;
      forall i :: 0 <= i < |r| ==> !IsFakeHyphen(r[i])
    decreases |stages|
  {
    if |stages| == 1 {
      assert RunGuarded(x, o, stages, st) == Step(x, FixFakeHyphens, st);
    } else {
      assert stages[1..][|stages| - 2] == FixFakeHyphens;
      LastStageCleans(x, o, stages[1..], Guarded(x, o, stages[0], st));
      assert RunGuarded(x, o, stages, st) == RunGuarded(x, o, stages[1..], Guarded(x, o, stages[0], st));
    }
  }

  /** fix_fake_hyphens runs last, so when it is on no invisible character
      it maps survives in the output of fix_all, whatever the other
      stages do. */
  lemma NoFakeHyphensAtEnd(x: Scanners, t: string, o: Options, counts: Counters)
    requires Enabled(o, FixFakeHyphens)
    ensures var r := FixAll(x, t, o, counts).text;
      forall i :: 0 <= i < |r| ==> !IsFakeHyphen(r[i])
  {
    FixAllIsGuarded(x, t, o, counts);
    LastStageCleans(x, o, ORDER, State(t, counts));
  }
}
