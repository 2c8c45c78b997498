/** What `into_count` hands back after a whole run: the lowercase hex texts
    of width 1..=digits that occur in the input, each with the number of its
    occurrences. */
module Report {
  import opened Classifier
  import opened Nibbles
  import opened Counter
  import opened Occurrences
  import opened Digits
  import opened Rendering
  import opened Variant
  import LateCorrect
  import Kimundi

  /** After a run every table holds only windows, and windows fit. */
  lemma RunKeysFit(strategy: Strategy, digits: nat, input: seq<Byte>)
    requires 1 <= digits <= MAX_DIGITS
    ensures Run(strategy, digits, input).Done?
    ensures KeysFit(Run(strategy, digits, input).value.tables)
  {
    LateCorrect.CountsWindows(strategy, digits, input);
    var t := Run(strategy, digits, input).value.tables;
    forall w, v | 0 <= w < |t| && v in t[w] ensures v < Pow16(w) {
      WindowsBound(input, w);
    }
  }

  /** Which texts appear in the result, and with which counter. */
  ghost predicate Describes(r: map<seq<Byte>, nat>, digits: nat, input: seq<Byte>)
  {
    forall k :: KeyDescribed(r, digits, input, k)
  }

  /** A key is in the result exactly when it is a lowercase hex text of
      width 1..=digits whose value some all-hex window of that width has;
      its counter is the number of such windows.  Since a lowercase text is
      the rendering of its own value, this is the number of places the text
      occurs in the input up to the case of its letters. */
  lemma IntoCountMeaning(strategy: Strategy, digits: nat, input: seq<Byte>)
    requires 1 <= digits <= MAX_DIGITS
    ensures Run(strategy, digits, input).Done?
    ensures KeysFit(Run(strategy, digits, input).value.tables)
    ensures Describes(IntoCount(Run(strategy, digits, input).value), digits, input)
  {
    RunKeysFit(strategy, digits, input);
    LateCorrect.CountsWindows(strategy, digits, input);
    TablesDescribe(Run(strategy, digits, input).value, input);
  }

  /** The same for any final state whose tables are the windows. */
  lemma TablesDescribe(st: VariantState, input: seq<Byte>)
    requires Valid(st) && KeysFit(st.tables)
    requires forall w :: 1 <= w <= st.digits ==> st.tables[w] == Windows(input, w)
    ensures Describes(IntoCount(st), st.digits, input)
  {
    forall k ensures KeyDescribed(IntoCount(st), st.digits, input, k) {
      KeyMeaning(st, input, k);
    }
  }

  ghost predicate KeyDescribed(r: map<seq<Byte>, nat>, digits: nat, input: seq<Byte>, k: seq<Byte>)
  {
    (k in r <==> 1 <= |k| <= digits && AllLowerHex(k) && Value(k) in Windows(input, |k|))
    && (k in r ==> r[k] == Windows(input, |k|)[Value(k)])
  }

  lemma KeyMeaning(st: VariantState, input: seq<Byte>, k: seq<Byte>)
    requires Valid(st) && KeysFit(st.tables)
    requires forall w :: 1 <= w <= st.digits ==> st.tables[w] == Windows(input, w)
    ensures KeyDescribed(IntoCount(st), st.digits, input, k)
  {
    var r := IntoCount(st);
    if k in r {
      var v :| v in st.tables[|k|] && k == Render(v, |k|);
      RenderIsLowerHex(v, |k|);
      RenderedKeysParse(st.tables);
    }
    if 1 <= |k| <= st.digits && AllLowerHex(k) && Value(k) in Windows(input, |k|) {
      RenderOfValue(k);
    }
  }

  /** Both strategies hand back the same map. */
  lemma IntoCountAgrees(digits: nat, input: seq<Byte>)
    requires 1 <= digits <= MAX_DIGITS
    ensures Run(EarlyCount, digits, input).Done? && Run(LateCount, digits, input).Done?
    ensures KeysFit(Run(EarlyCount, digits, input).value.tables)
    ensures KeysFit(Run(LateCount, digits, input).value.tables)
    ensures IntoCount(Run(EarlyCount, digits, input).value) == IntoCount(Run(LateCount, digits, input).value)
  {
    IntoCountMeaning(EarlyCount, digits, input);
    IntoCountMeaning(LateCount, digits, input);
    DescribesUnique(IntoCount(Run(EarlyCount, digits, input).value),
                    IntoCount(Run(LateCount, digits, input).value), digits, input);
  }

  /** The description pins the map down. */
  lemma DescribesUnique(a: map<seq<Byte>, nat>, b: map<seq<Byte>, nat>, digits: nat, input: seq<Byte>)
    requires Describes(a, digits, input) && Describes(b, digits, input)
    ensures a == b
  {
    forall k | k in a || k in b ensures k in a && k in b && a[k] == b[k] {
      assert KeyDescribed(a, digits, input, k) && KeyDescribed(b, digits, input, k);
    }
    assert a.Keys == b.Keys;
  }

  /** The kimundi engine hands back the same map as well. */
  lemma KimundiIntoCount(digits: nat, input: seq<Byte>)
    requires 1 <= digits <= MAX_DIGITS
    ensures Kimundi.Run(digits, input).Done?
    ensures KeysFit(Kimundi.Run(digits, input).value.ctx.tables)
    ensures Describes(Kimundi.IntoCount(Kimundi.Run(digits, input).value), digits, input)
  {
    Kimundi.KimundiCountsWindows(digits, input);
    IntoCountMeaning(EarlyCount, digits, input);
  }

  /** The sum law: the counters of table w add up to the number of places a
      width-w window fits inside a run, max(0, n - w + 1) summed over the
      runs of n hex digits. */
  lemma SumLaw(strategy: Strategy, digits: nat, input: seq<Byte>, w: nat)
    requires 1 <= digits <= MAX_DIGITS && 1 <= w <= digits
    ensures Run(strategy, digits, input).Done?
    ensures |Run(strategy, digits, input).value.tables[w]| == WindowTotal(RunLengths(input), w)
  {
    LateCorrect.CountsWindows(strategy, digits, input);
    WindowCountLaw(input, w);
  }
}
