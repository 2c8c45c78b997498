/** LateCount counts each window only at the full width it was seen at, and
    `do_late_counts` derives the narrower tables afterwards.  The two
    strategies end with the same tables: while reading, every EarlyCount
    table is the LateCount table plus the prefixes of the EarlyCount table
    one width up, and `do_late_counts` adds exactly those prefixes, from
    the top width down. */
module LateCorrect {
  import opened Classifier
  import opened Nibbles
  import opened Counter
  import opened Occurrences
  import opened Variant
  import opened Digits
  import opened Rendering
  import EarlyCorrect

  /** Table list l falls short of e by the prefixes of e: the top tables
      agree and below them e[w] is l[w] plus the prefixes of e[w + 1]. */
  ghost predicate Closes(l: seq<Table>, e: seq<Table>, d: nat)
  {
    |l| == |e| == d + 1 && l[d] == e[d]
    && forall w :: 1 <= w < d ==> e[w] == l[w] + Prefixes(e[w + 1])
  }

  /** A LateCount state and an EarlyCount state that have read the same
      input: same register, tables related by Closes. */
  ghost predicate Shadows(l: VariantState, e: VariantState)
  {
    Valid(l) && Valid(e) && l.strategy == LateCount && e.strategy == EarlyCount
    && l.digits == e.digits && l.number == e.number && l.len == e.len
    && Closes(l.tables, e.tables, l.digits)
  }

  /** Dropping k nibbles and then one more drops k + 1. */
  lemma {:induction false} DropNext(u: nat, k: nat)
    ensures Drop(u, k) / 16 == Drop(u, k + 1)
  {
    if k > 0 {
      DropNext(u / 16, k - 1);
    }
  }

  lemma PrefixesEmpty()
    ensures Prefixes(multiset{}) == multiset{}
  {
  }

  lemma DropPrefix(m: nat, k: nat)
    ensures Prefixes(multiset{Drop(m, k)}) == multiset{Drop(m, k + 1)}
  {
    PrefixesSingle(Drop(m, k));
    DropNext(m, k);
  }

  /** What `count_number_end` adds under EarlyCount at width w is what it
      adds under LateCount plus the prefixes of what EarlyCount adds one
      width up.  The register's digits, written out, form a hex run whose
      windows are exactly what EarlyCount adds, and the windows of a hex run
      are closed under taking prefixes. */
  lemma EndAddsCloses(v: nat, len: nat, w: nat)
    requires 1 <= w && len <= MAX_DIGITS
    ensures EndAdds(v, len, w) == EndAdded(LateCount, v, len, w) + Prefixes(EndAdds(v, len, w + 1))
  {
    var x := Render(v, len);
    var here, up := Windows(x, w), Windows(x, w + 1);
    assert EndAdds(v, len, w) == here && EndAdds(v, len, w + 1) == up by {
      RenderIsLowerHex(v, len);
      ValueOfRender(v, len);
      EarlyCorrect.EndAddsAreWindows(v, x, w);
      EarlyCorrect.EndAddsAreWindows(v, x, w + 1);
    }
    assert here == EndAdded(LateCount, v, len, w) + Prefixes(up) by {
      RenderIsLowerHex(v, len);
      WindowsClosure(x, w);
      LastWindowOfRender(v, len, w);
    }
  }

  /** The last width-w window of the written-out register is its low w
      nibbles. */
  lemma LastWindowOfRender(v: nat, len: nat, w: nat)
    requires 1 <= w
    ensures EndWindow(Render(v, len), w) == EndAdded(LateCount, v, len, w)
  {
    var x := Render(v, len);
    RenderIsLowerHex(v, len);
    if w <= len {
      ValueOfRender(v, len);
      ValueSuffix(x, w);
      MaskOfMask(v, w, len);
      AllHexSlice(x, len - w, len);
    }
  }

  /** The same relation for what `count_digit` adds, in every case. */
  lemma DigitAddedCloses(l: VariantState, e: VariantState, b: Byte, w: nat)
    requires Shadows(l, e) && 1 <= w <= l.digits
    ensures DigitAdded(e, b, w) == DigitAdded(l, b, w) + Prefixes(DigitAdded(e, b, w + 1))
  {
    if !IsHex(b) && l.len != 0 {
      EndAddedCloses(e.number, e.len, w);
    } else if IsHex(b) && l.len == l.digits {
      FullAddedCloses(e.number, l.len, w);
    } else {
      PrefixesEmpty();
    }
  }

  /** At a full register EarlyCount adds every prefix of the leaving window
      and LateCount only the window itself. */
  lemma FullAddedCloses(v: nat, d: nat, w: nat)
    requires 1 <= w <= d
    ensures Added(EarlyCount, v, d, w) == Added(LateCount, v, d, w) + Prefixes(Added(EarlyCount, v, d, w + 1))
  {
    if w < d {
      DropPrefix(Mask(v, d), d - w - 1);
    } else {
      PrefixesEmpty();
    }
  }

  lemma EndAddedCloses(v: nat, len: nat, w: nat)
    requires 1 <= w && len <= MAX_DIGITS
    ensures EndAdded(EarlyCount, v, len, w)
         == EndAdded(LateCount, v, len, w) + Prefixes(EndAdded(EarlyCount, v, len, w + 1))
  {
    EndAddsCloses(v, len, w);
  }

  /** One width: adding related increments to related tables keeps them
      related. */
  lemma CloseWidth(lw: Table, ew: Table, up: Table, al: Table, ae: Table, aup: Table)
    requires ew == lw + Prefixes(up) && ae == al + Prefixes(aup)
    ensures ew + ae == (lw + al) + Prefixes(up + aup)
  {
    PrefixesAdd(up, aup);
    var p, q := Prefixes(up), Prefixes(aup);
    forall z ensures (ew + ae)[z] == ((lw + al) + (p + q))[z] {
    }
  }

  lemma ShadowDigitTables(l: VariantState, e: VariantState, b: Byte, l2: VariantState, e2: VariantState)
    requires Shadows(l, e)
    requires |l2.tables| == |l.tables| && |e2.tables| == |e.tables|
    requires forall w :: 0 <= w <= l.digits ==> l2.tables[w] == l.tables[w] + DigitAdded(l, b, w)
    requires forall w :: 0 <= w <= e.digits ==> e2.tables[w] == e.tables[w] + DigitAdded(e, b, w)
    ensures Closes(l2.tables, e2.tables, l.digits)
  {
    var d := l.digits;
    forall w | 1 <= w < d ensures e2.tables[w] == l2.tables[w] + Prefixes(e2.tables[w + 1]) {
      DigitAddedCloses(l, e, b, w);
      CloseWidth(l.tables[w], e.tables[w], e.tables[w + 1],
                 DigitAdded(l, b, w), DigitAdded(e, b, w), DigitAdded(e, b, w + 1));
    }
    DigitAddedCloses(l, e, b, d);
    assert DigitAdded(e, b, d + 1) == multiset{};
    PrefixesEmpty();
  }

  /** Reading one byte keeps the strategies in step. */
  lemma ShadowStep(l: VariantState, e: VariantState, b: Byte)
    requires Shadows(l, e)
    ensures Shadows(CountDigit(l, b), CountDigit(e, b))
  {
    ShadowDigitTables(l, e, b, CountDigit(l, b), CountDigit(e, b));
  }

  lemma {:induction false} ShadowFeed(l: VariantState, e: VariantState, s: seq<Byte>)
    requires Shadows(l, e)
    ensures Shadows(Feed(l, s), Feed(e, s))
    decreases |s|
  {
    if s != [] {
      var p := s[..|s| - 1];
      ShadowFeed(l, e, p);
      ShadowStep(Feed(l, p), Feed(e, p), s[|s| - 1]);
    }
  }

  lemma ShadowEndTables(l: VariantState, e: VariantState, l2: VariantState, e2: VariantState)
    requires Shadows(l, e)
    requires |l2.tables| == |l.tables| && |e2.tables| == |e.tables|
    requires forall w :: 0 <= w <= l.digits ==>
      l2.tables[w] == l.tables[w] + EndAdded(LateCount, l.number, l.len, w)
    requires forall w :: 0 <= w <= e.digits ==>
      e2.tables[w] == e.tables[w] + EndAdded(EarlyCount, e.number, e.len, w)
    ensures Closes(l2.tables, e2.tables, l.digits)
  {
    var d, v, n := l.digits, l.number, l.len;
    forall w | 1 <= w < d ensures e2.tables[w] == l2.tables[w] + Prefixes(e2.tables[w + 1]) {
      EndAddedCloses(v, n, w);
      CloseWidth(l.tables[w], e.tables[w], e.tables[w + 1],
                 EndAdded(LateCount, v, n, w), EndAdded(EarlyCount, v, n, w),
                 EndAdded(EarlyCount, v, n, w + 1));
    }
    EndAddedCloses(v, n, d);
    assert EndAdds(v, n, d + 1) == multiset{};
    PrefixesEmpty();
  }

  /** Counting the last run keeps the strategies in step. */
  lemma ShadowEnd(l: VariantState, e: VariantState)
    requires Shadows(l, e)
    ensures Shadows(CountDigitEnd(l), CountDigitEnd(e))
  {
    ShadowEndTables(l, e, CountDigitEnd(l), CountDigitEnd(e));
  }

  /** The loop of `do_late_counts` from width d down: above d the tables are
      final, and each step adds the prefixes of table d to table d - 1,
      which is what was missing there. */
  lemma {:induction false} LateLoopCloses(l: seq<Table>, e: seq<Table>, d: nat)
    requires |l| == |e| && d < |l| && l[0] == e[0]
    requires forall w :: d <= w < |l| ==> l[w] == e[w]
    requires forall w :: 1 <= w < d ==> e[w] == l[w] + Prefixes(e[w + 1])
    ensures LateLoop(l, d) == e
    decreases d
  {
    if d < 2 {
      assert forall w :: 0 <= w < |l| ==> l[w] == e[w];
    } else {
      var next := l[d - 1 := DeriveInto(l[d - 1], l[d])];
      DeriveIntoAddsPrefixes(l[d - 1], l[d]);
      assert LateLoop(l, d) == LateLoop(next, d - 1);
      LateLoopCloses(next, e, d - 1);
    }
  }

  /** `do_late_counts` turns the LateCount tables into the EarlyCount ones. */
  lemma LateCatchesUp(l: VariantState, e: VariantState)
    requires Shadows(l, e)
    ensures DoLateCounts(l).tables == e.tables
  {
    LateLoopCloses(l.tables, e.tables, l.digits);
  }

  /** Both strategies finish with the same tables. */
  lemma StrategiesAgree(digits: nat, input: seq<Byte>)
    requires 1 <= digits <= MAX_DIGITS
    ensures Run(LateCount, digits, input).Done? && Run(EarlyCount, digits, input).Done?
    ensures Run(LateCount, digits, input).value.tables == Run(EarlyCount, digits, input).value.tables
  {
    var l0, e0 := New(LateCount, digits).value, New(EarlyCount, digits).value;
    PrefixesEmpty();
    assert Shadows(l0, e0);
    ShadowFeed(l0, e0, input);
    var l1, e1 := Feed(l0, input), Feed(e0, input);
    ShadowEnd(l1, e1);
    LateCatchesUp(CountDigitEnd(l1), CountDigitEnd(e1));
  }

  /** Under either strategy, `finalize` leaves in table w exactly the values
      of the all-hex width-w windows of the input, each counted once. */
  lemma CountsWindows(strategy: Strategy, digits: nat, input: seq<Byte>)
    requires 1 <= digits <= MAX_DIGITS
    ensures Run(strategy, digits, input).Done?
    ensures forall w :: 1 <= w <= digits ==>
      Run(strategy, digits, input).value.tables[w] == Windows(input, w)
  {
    EarlyCorrect.EarlyCountsWindows(digits, input);
    StrategiesAgree(digits, input);
  }
}
