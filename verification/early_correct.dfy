/** EarlyCount counts every hex window exactly once: after `finalize`, the
    table of width w holds the values of all all-hex width-w windows of the
    input, each as often as it occurs. */
module EarlyCorrect {
  import opened Classifier
  import opened Nibbles
  import opened Digits
  import opened Counter
  import opened Occurrences
  import opened Variant

  /** The last n bytes read. */
  function Tail(s: seq<Byte>, n: nat): seq<Byte>
    requires n <= |s|
  {
    s[|s| - n..]
  }

  /** The register after reading s: its `len` valid digits are the last
      `len` bytes, all hex, packed most significant first into the low
      nibbles; unless the register is full, they are the whole current run. */
  predicate RegisterHolds(st: VariantState, s: seq<Byte>)
  {
    st.len <= |s| && AllHex(Tail(s, st.len)) && st.len <= MAX_DIGITS
    && Mask(st.number, st.len) == Value(Tail(s, st.len))
    && (st.len < st.digits ==> st.len == |s| || !IsHex(s[|s| - st.len - 1]))
  }

  /** What the register means: its low w nibbles are the last w digits. */
  lemma RegisterWindow(st: VariantState, s: seq<Byte>, w: nat)
    requires RegisterHolds(st, s) && w <= st.len
    ensures Mask(st.number, w) == Value(s[|s| - w..])
  {
    var t := Tail(s, st.len);
    MaskOfMask(st.number, w, st.len);
    ValueSuffix(t, w);
    assert t[|t| - w..] == s[|s| - w..];
  }

  lemma RegisterNonHex(st: VariantState, s: seq<Byte>, b: Byte)
    requires Valid(st) && RegisterHolds(st, s) && !IsHex(b)
    ensures RegisterHolds(CountDigit(st, b), s + [b])
  {
    var r := CountDigit(st, b);
    assert r.len == 0;
    assert Tail(s + [b], 0) == [];
  }

  lemma RegisterGrow(st: VariantState, s: seq<Byte>, b: Byte)
    requires Valid(st) && RegisterHolds(st, s) && IsHex(b) && st.len < st.digits
    ensures RegisterHolds(CountDigit(st, b), s + [b])
  {
    var r := CountDigit(st, b);
    assert r.len == st.len + 1 && r.number == Push(st.number, DigitValue(b)) && r.digits == st.digits;
    GrowHolds(st, r, s, b);
  }

  /** The register after a digit that does not fill it: one more digit at
      the low end. */
  lemma GrowHolds(st: VariantState, r: VariantState, s: seq<Byte>, b: Byte)
    requires Valid(st) && RegisterHolds(st, s) && IsHex(b) && st.len < st.digits
    requires r.len == st.len + 1 && r.number == Push(st.number, DigitValue(b)) && r.digits == st.digits
    ensures RegisterHolds(r, s + [b])
  {
    var s' := s + [b];
    var t := Tail(s, st.len);
    TailGrow(s, b, st.len);
    PushMask(st.number, DigitValue(b), st.len + 1);
    ValueSnoc(t, b);
    if r.len < r.digits && r.len != |s'| {
      assert s'[|s'| - r.len - 1] == s[|s| - st.len - 1];
    }
  }

  lemma TailGrow(s: seq<Byte>, b: Byte, n: nat)
    requires n <= |s|
    ensures Tail(s + [b], n + 1) == Tail(s, n) + [b]
  {
  }

  lemma RegisterFull(st: VariantState, s: seq<Byte>, b: Byte)
    requires Valid(st) && RegisterHolds(st, s) && IsHex(b) && st.len == st.digits
    ensures RegisterHolds(CountDigit(st, b), s + [b])
  {
    var r := CountDigit(st, b);
    var s' := s + [b];
    var t := Tail(s, st.len);
    assert Tail(s', r.len) == t[1..] + [b];
    AllHexSlice(t, 1, |t|);
    PushMask(st.number, DigitValue(b), st.len);
    MaskOfMask(st.number, st.len - 1, st.len);
    ValueDropFirst(t);
    ValueSnoc(t[1..], b);
  }

  /** Reading one byte keeps the register meaning. */
  lemma RegisterStep(st: VariantState, s: seq<Byte>, b: Byte)
    requires Valid(st) && RegisterHolds(st, s)
    ensures RegisterHolds(CountDigit(st, b), s + [b])
  {
    if !IsHex(b) {
      RegisterNonHex(st, s, b);
    } else if st.len < st.digits {
      RegisterGrow(st, s, b);
    } else {
      RegisterFull(st, s, b);
    }
  }

  /** After any input, a fresh register holds its meaning. */
  lemma {:induction false} RegisterInvariant(st: VariantState, s: seq<Byte>)
    requires Valid(st) && st.len == 0
    ensures RegisterHolds(Feed(st, s), s)
    decreases |s|
  {
    if s == [] {
      assert Tail(s, 0) == [];
    } else {
      var p, b := s[..|s| - 1], s[|s| - 1];
      SnocSplit(s);
      RegisterInvariant(st, p);
      RegisterStep(Feed(st, p), p, b);
    }
  }

  /** The windows `count_number_end` counts for a register holding the
      digit string x: every window of x, once. */
  lemma {:induction false} EndAddsAreWindows(v: nat, x: seq<Byte>, w: nat)
    requires AllHex(x) && |x| <= MAX_DIGITS && Mask(v, |x|) == Value(x) && w >= 1
    ensures EndAdds(v, |x|, w) == Windows(x, w)
    decreases |x|
  {
    if |x| < w {
      WindowsShort(x, w);
    } else {
      var n := |x|;
      AllHexSlice(x, 1, n);
      MaskOfMask(v, n - 1, n);
      ValueDropFirst(x);
      EndAddsAreWindows(v, x[1..], w);
      WindowsFront(x, w);
      FirstWindow(v, x, w);
    }
  }

  /** The newest entry `count_number_end` adds at width w is the first
      window of the register. */
  lemma FirstWindow(v: nat, x: seq<Byte>, w: nat)
    requires AllHex(x) && Mask(v, |x|) == Value(x) && 1 <= w <= |x|
    ensures StartWindow(x, w) == multiset{Drop(Mask(v, |x|), |x| - w)}
  {
    AllHexSlice(x, 0, w);
    ValuePrefix(x, w);
    DropIsDiv(Value(x), |x| - w);
  }

  /** The tables of EarlyCount after reading s: every window that starts
      before the register's digits is counted, and the windows inside the
      register are still to come. */
  predicate EarlyHolds(st: VariantState, s: seq<Byte>)
  {
    Valid(st) && st.strategy == EarlyCount && RegisterHolds(st, s)
    && forall w :: 1 <= w <= st.digits ==> WidthHolds(st.tables[w], s, Tail(s, st.len), w)
  }

  /** Table t together with the windows x still holds makes up the windows
      of s. */
  predicate WidthHolds(t: Table, s: seq<Byte>, x: seq<Byte>, w: nat)
  {
    t + Windows(x, w) == Windows(s, w)
  }

  lemma TailShift(s: seq<Byte>, b: Byte, n: nat)
    requires 1 <= n <= |s|
    ensures Tail(s + [b], n) == Tail(s, n)[1..] + [b]
  {
  }

  lemma TailEmpty(s: seq<Byte>)
    ensures Tail(s, 0) == []
  {
  }

  /** One width when the register is flushed: its windows join the table. */
  lemma FlushWidth(t: Table, s: seq<Byte>, x: seq<Byte>, v: nat, w: nat, added: Table)
    requires WidthHolds(t, s, x, w) && 1 <= w
    requires AllHex(x) && |x| <= MAX_DIGITS && Mask(v, |x|) == Value(x)
    requires added == if |x| != 0 then EndAdds(v, |x|, w) else multiset{}
    ensures t + added == Windows(s, w)
  {
    EndAddsAreWindows(v, x, w);
  }

  /** One width at a byte that ends the run: the register's windows are
      counted now, and the byte itself closes no window. */
  lemma NonHexWidth(st: VariantState, s: seq<Byte>, b: Byte, w: nat, added: Table)
    requires Valid(st) && RegisterHolds(st, s) && !IsHex(b) && 1 <= w <= st.digits
    requires WidthHolds(st.tables[w], s, Tail(s, st.len), w)
    requires added == if st.len != 0 then EndAdds(st.number, st.len, w) else multiset{}
    ensures st.tables[w] + added == Windows(s + [b], w)
  {
    WindowsSnoc(s, b, w);
    if w <= |s + [b]| {
      assert (s + [b])[|s + [b]| - w..][w - 1] == b;    // the byte closes no window
    }
    FlushWidth(st.tables[w], s, Tail(s, st.len), st.number, w, added);
  }

  lemma EarlyNonHex(st: VariantState, s: seq<Byte>, b: Byte)
    requires EarlyHolds(st, s) && !IsHex(b)
    ensures EarlyHolds(CountDigit(st, b), s + [b])
  {
    RegisterStep(st, s, b);
    var r := CountDigit(st, b);
    TailEmpty(s + [b]);
    forall w | 1 <= w <= st.digits
      ensures r.tables[w] + Windows([], w) == Windows(s + [b], w)
    {
      NonHexWidth(st, s, b, w, DigitAdded(st, b, w));
    }
  }

  /** While the register grows, the newest window of every width lies
      inside the register or does not exist. */
  lemma EndWindowInRegister(st: VariantState, s: seq<Byte>, b: Byte, w: nat)
    requires RegisterHolds(st, s) && st.len < st.digits && 1 <= w
    ensures EndWindow(s + [b], w) == EndWindow(Tail(s, st.len) + [b], w)
  {
    var s' := s + [b];
    var t := Tail(s, st.len) + [b];
    if w <= |t| {
      assert s'[|s'| - w..] == t[|t| - w..];
    } else if w <= |s'| {
      assert s'[|s'| - w..][w - st.len - 2] == s[|s| - st.len - 1];
    }
  }

  /** One width while the register grows: the new window is counted later,
      from the register, so the tables stay as they are. */
  lemma GrowWidth(t: Table, s: seq<Byte>, x: seq<Byte>, b: Byte, w: nat)
    requires t + Windows(x, w) == Windows(s, w)
    requires EndWindow(s + [b], w) == EndWindow(x + [b], w)
    ensures t + Windows(x + [b], w) == Windows(s + [b], w)
  {
    WindowsSnoc(s, b, w);
    WindowsSnoc(x, b, w);
  }

  lemma EarlyGrow(st: VariantState, s: seq<Byte>, b: Byte)
    requires EarlyHolds(st, s) && IsHex(b) && st.len < st.digits
    ensures EarlyHolds(CountDigit(st, b), s + [b])
  {
    RegisterStep(st, s, b);
    var r := CountDigit(st, b);
    var t := Tail(s, st.len);
    assert Tail(s + [b], r.len) == t + [b];
    forall w | 1 <= w <= st.digits
      ensures r.tables[w] + Windows(t + [b], w) == Windows(s + [b], w)
    {
      EndWindowInRegister(st, s, b, w);
      GrowWidth(st.tables[w], s, t, b, w);
    }
  }

  /** A window no wider than a suffix of s lies inside that suffix. */
  lemma EndWindowSuffix(s: seq<Byte>, x: seq<Byte>, w: nat)
    requires |x| <= |s| && x == s[|s| - |x|..] && w <= |x|
    ensures EndWindow(s, w) == EndWindow(x, w)
  {
    assert s[|s| - w..] == x[|x| - w..];
  }

  lemma SuffixSnoc(s: seq<Byte>, x: seq<Byte>, b: Byte)
    requires |x| <= |s| && x == s[|s| - |x|..]
    ensures x + [b] == (s + [b])[|s + [b]| - |x + [b]|..]
  {
  }

  lemma StartOfSnoc(x: seq<Byte>, b: Byte, w: nat)
    requires AllHex(x) && 1 <= w <= |x|
    ensures StartWindow(x + [b], w) == multiset{Value(x[..w])}
    ensures (x + [b])[1..] == x[1..] + [b]
  {
    assert (x + [b])[..w] == x[..w];
    AllHexSlice(x, 0, w);
  }

  /** One width when the register is full: the window leaving the register
      is the first window of the old register contents. */
  lemma FullWidth(t: Table, s: seq<Byte>, x: seq<Byte>, b: Byte, w: nat)
    requires t + Windows(x, w) == Windows(s, w)
    requires AllHex(x) && 1 <= w <= |x| && |x| <= |s|
    requires x == s[|s| - |x|..]
    ensures t + multiset{Value(x[..w])} + Windows(x[1..] + [b], w) == Windows(s + [b], w)
  {
    var xb := x + [b];
    SuffixSnoc(s, x, b);
    EndWindowSuffix(s + [b], xb, w);
    StartOfSnoc(x, b, w);
    WindowsSnoc(s, b, w);
    WindowsSnoc(x, b, w);
    WindowsFront(xb, w);
    Assemble(Windows(s + [b], w), Windows(s, w), EndWindow(xb, w), t, Windows(x, w),
             Windows(xb, w), multiset{Value(x[..w])}, Windows(xb[1..], w));
  }

  lemma Assemble(a: Table, ws: Table, e: Table, t: Table, wx: Table, wxb: Table, first: Table, rest: Table)
    requires a == ws + e && ws == t + wx && wxb == wx + e && wxb == first + rest
    ensures t + first + rest == a
  {
    forall z ensures (t + first + rest)[z] == a[z] {
      assert a[z] == ws[z] + e[z] && ws[z] == t[z] + wx[z];
      assert wxb[z] == wx[z] + e[z] && wxb[z] == first[z] + rest[z];
    }
  }

  lemma FullStepWidth(st: VariantState, s: seq<Byte>, b: Byte, w: nat, rt: Table)
    requires Valid(st) && st.strategy == EarlyCount && RegisterHolds(st, s) && IsHex(b)
    requires st.len == st.digits && 1 <= w <= st.digits
    requires WidthHolds(st.tables[w], s, Tail(s, st.len), w)
    requires rt == st.tables[w] + DigitAdded(st, b, w)
    ensures WidthHolds(rt, s + [b], Tail(s + [b], st.len), w)
  {
    var x := Tail(s, st.len);
    TailShift(s, b, st.len);
    LeavingWindow(st, s, w);
    assert DigitAdded(st, b, w) == Added(EarlyCount, st.number, st.len, w);
    assert rt == st.tables[w] + multiset{Value(x[..w])};
    FullWidth(st.tables[w], s, x, b, w);
  }

  /** The w-nibble prefix of a full register is the register's first
      width-w window. */
  lemma LeavingWindow(st: VariantState, s: seq<Byte>, w: nat)
    requires RegisterHolds(st, s) && 1 <= w <= st.len
    ensures Drop(Mask(st.number, st.len), st.len - w) == Value(Tail(s, st.len)[..w])
  {
    ValuePrefix(Tail(s, st.len), w);
    DropIsDiv(Mask(st.number, st.len), st.len - w);
  }

  lemma EarlyFull(st: VariantState, s: seq<Byte>, b: Byte)
    requires EarlyHolds(st, s) && IsHex(b) && st.len == st.digits
    ensures EarlyHolds(CountDigit(st, b), s + [b])
  {
    RegisterStep(st, s, b);
    EarlyFullTables(st, s, b, CountDigit(st, b));
  }

  lemma EarlyFullTables(st: VariantState, s: seq<Byte>, b: Byte, r: VariantState)
    requires EarlyHolds(st, s) && IsHex(b) && st.len == st.digits
    requires Valid(r) && r.strategy == st.strategy && r.digits == st.digits && r.len == st.len
    requires RegisterHolds(r, s + [b])
    requires forall w :: 0 <= w <= st.digits ==> r.tables[w] == st.tables[w] + DigitAdded(st, b, w)
    ensures EarlyHolds(r, s + [b])
  {
    forall w | 1 <= w <= st.digits
      ensures WidthHolds(r.tables[w], s + [b], Tail(s + [b], r.len), w)
    {
      FullStepWidth(st, s, b, w, r.tables[w]);
    }
  }

  lemma EarlyStep(st: VariantState, s: seq<Byte>, b: Byte)
    requires EarlyHolds(st, s)
    ensures EarlyHolds(CountDigit(st, b), s + [b])
  {
    if !IsHex(b) {
      EarlyNonHex(st, s, b);
    } else if st.len < st.digits {
      EarlyGrow(st, s, b);
    } else {
      EarlyFull(st, s, b);
    }
  }

  lemma EarlyStart(st: VariantState)
    requires Valid(st) && st.strategy == EarlyCount && st.len == 0
    requires forall w :: 0 <= w <= st.digits ==> st.tables[w] == multiset{}
    ensures EarlyHolds(st, [])
  {
    assert Tail([], 0) == [];
  }

  lemma {:induction false} EarlyInvariant(st: VariantState, s: seq<Byte>)
    requires Valid(st) && st.strategy == EarlyCount && st.len == 0
    requires forall w :: 0 <= w <= st.digits ==> st.tables[w] == multiset{}
    ensures EarlyHolds(Feed(st, s), s)
    decreases |s|
  {
    if s == [] {
      EarlyStart(st);
    } else {
      var p, b := s[..|s| - 1], s[|s| - 1];
      SnocSplit(s);
      EarlyInvariant(st, p);
      EarlyStep(Feed(st, p), p, b);
    }
  }

  /** The last run, counted by `count_digit_end`, completes the windows. */
  lemma EarlyEnd(st: VariantState, s: seq<Byte>)
    requires EarlyHolds(st, s)
    ensures forall w :: 1 <= w <= st.digits ==> CountDigitEnd(st).tables[w] == Windows(s, w)
  {
    EarlyEndTables(st, s, CountDigitEnd(st));
  }

  lemma EarlyEndTables(st: VariantState, s: seq<Byte>, r: VariantState)
    requires EarlyHolds(st, s) && |r.tables| == |st.tables|
    requires forall w :: 0 <= w <= st.digits ==>
      r.tables[w] == st.tables[w] + EndAdded(st.strategy, st.number, st.len, w)
    ensures forall w :: 1 <= w <= st.digits ==> r.tables[w] == Windows(s, w)
  {
    forall w | 1 <= w <= st.digits ensures r.tables[w] == Windows(s, w) {
      var added := EndAdded(st.strategy, st.number, st.len, w);
      assert added == if st.len != 0 then EndAdds(st.number, st.len, w) else multiset{};
      FlushWidth(st.tables[w], s, Tail(s, st.len), st.number, w, added);
    }
  }

  /** Under EarlyCount, `finalize` leaves in table w exactly the multiset of
      the all-hex width-w windows of the input. */
  lemma EarlyCountsWindows(digits: nat, input: seq<Byte>)
    requires 1 <= digits <= MAX_DIGITS
    ensures Run(EarlyCount, digits, input).Done?
    ensures forall w :: 1 <= w <= digits ==>
      Run(EarlyCount, digits, input).value.tables[w] == Windows(input, w)
  {
    var st := New(EarlyCount, digits).value;
    EarlyInvariant(st, input);
    var fed := Feed(st, input);
    EarlyEnd(fed, input);
    assert Run(EarlyCount, digits, input).value.tables == CountDigitEnd(fed).tables;
  }
}
