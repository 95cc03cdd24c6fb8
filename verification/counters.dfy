/** The report counters the rules add to: one label per line of the report
    (PAKNEVIS.py:406-418). Each rule is modelled as returning its rewritten
    text together with the amounts it adds (a delta); the pipeline adds the
    deltas to the running report, which is what the source's in-place
    `report_counts[...] += n` amounts to. */
module Counters {

  /** One constructor per report label, in the order the report declares them. */
  datatype Label =
    | ArabicKaf             // Arabic kaf replaced
    | ArabicYeh             // Arabic yeh replaced
    | EnComma               // ASCII comma replaced
    | EnSemicolon           // ASCII semicolon replaced
    | EnQuestion            // ASCII question mark replaced
    | EnQuotes              // pairs of ASCII or curly quotes replaced
    | EnDigits              // ASCII digits replaced
    | ArDigits              // Arabic-Indic digits replaced
    | EnPercent             // ASCII percent sign replaced
    | ExtraKasre            // "ه ی" joined into a hamza above
    | RepeatedQuestion      // runs of question marks collapsed
    | RepeatedExclamation   // runs of exclamation marks collapsed
    | VerbPrefixSpace       // space after the prefixes mi / nemi
    | SuffixSpace           // space before a pronominal suffix
    | ExtraSpace            // surplus space between words
    | InnerBracketSpace     // space just inside a bracket
    | SpaceBeforePunct      // space before punctuation
    | PrefixVerbSpace       // space inside a prefixed verb
    | Dictionary            // dictionary corrections
    | Ellipsis              // runs of dots collapsed into an ellipsis
    | FakeZwnj              // invisible characters turned into ZWNJ

  /** A label missing from the map reads as zero, as every label of the
      source's report starts at zero. */
  type Counters = map<Label, nat>

  function Get(c: Counters, l: Label): nat {
    if l in c then c[l] else 0
  }

  /** Label-wise sum: the report after a rule has added its delta. */
  function Add(c: Counters, d: Counters): (r: Counters)
    ensures forall l :: Get(r, l) == Get(c, l) + Get(d, l)
  {
    map l | l in c.Keys + d.Keys :: Get(c, l) + Get(d, l)
  }

  /** The delta adds nothing to any label. */
  predicate Zero(d: Counters) {
    forall l :: Get(d, l) == 0
  }

  /** The delta adds only to labels in `ls`. */
  predicate Within(d: Counters, ls: set<Label>) {
    forall l :: l !in ls ==> Get(d, l) == 0
  }

  /** Every label of `d` is at least its value in `c`. */
  predicate Grows(c: Counters, d: Counters) {
    forall l :: Get(c, l) <= Get(d, l)
  }

  /** What each rule returns: its output text and the amounts it counted. */
  datatype Rewrite = Rewrite(text: string, delta: Counters)

  /** What the pipeline carries from rule to rule: the text and the report so far. */
  datatype State = State(text: string, counts: Counters)
}
