/** `Variant<T>`: the streaming counter of variant.rs over hash-map tables.

    The state is the per-width tables, the u64 register that holds the most
    recent hex digits as nibbles, and the number of valid digits in it.  The
    strategy decides whether `count_number` counts every prefix at once
    (EarlyCount) or only the full-width value, leaving prefixes to
    `do_late_counts` (LateCount). */
module Variant {
  import opened Classifier
  import opened Nibbles
  import opened Counter
  import opened Digits
  import opened Rendering

  /** `CountStrat`: the two strategies, told apart by `COUNT_LATE`. */
  datatype Strategy = EarlyCount | LateCount

  /** `Variant<T>`: count_maps, digits, current_number, current_digits. */
  datatype VariantState = VariantState(
    strategy: Strategy,
    tables: seq<Table>,
    digits: nat,
    number: nat,
    len: nat)

  /** A state `new` can produce and every operation keeps: one table per
      width 0..=digits, the register within u64, at most `digits` valid
      digits, and nothing ever counted at width 0. */
  predicate Valid(st: VariantState)
  {
    1 <= st.digits <= MAX_DIGITS
    && |st.tables| == st.digits + 1
    && st.len <= st.digits
    && st.number < U64_MODULUS
    && st.tables[0] == multiset{}
  }

  /** Every key stored at width w has at most w nibbles. */
  predicate KeysFit(tables: seq<Table>)
  {
    forall w, v :: 0 <= w < |tables| && v in tables[w] ==> v < Pow16(w)
  }

  /** `new_internal`.  The source asserts `2 * size_of::<u64>() >= digits`;
      a width of 0 passes that assert.  With overflow checks on, it then
      panics at `current_digits -= 1` on the first hex digit; without them
      the counter wraps round and back, nothing is ever counted and every
      input yields an empty map.  Both are refused here. */
  function New(strategy: Strategy, digits: nat): (r: Outcome<VariantState>)
    ensures r.Done? <==> 1 <= digits <= MAX_DIGITS
    ensures r.Done? ==> Valid(r.value) && r.value.strategy == strategy
                        && r.value.digits == digits && r.value.len == 0
                        && r.value.number == 0
                        && forall w :: 0 <= w <= digits ==> r.value.tables[w] == multiset{}
  {
    if digits > MAX_DIGITS then Panic("assertion failed: size_of::<Number>() * 2 >= digits")
    else if digits == 0 then Panic("attempt to subtract with overflow")
    else Done(VariantState(strategy, NewCounter(digits), digits, 0, 0))
  }

  /** What `count_number(v, width)` adds at width w: EarlyCount adds the
      w-nibble prefix of the masked value at every width 1..=width, LateCount
      adds the masked value at `width` only. */
  function Added(strategy: Strategy, v: nat, width: nat, w: nat): Table
  {
    if 1 <= w <= width && (strategy == EarlyCount || w == width)
    then multiset{Drop(Mask(v, width), width - w)}
    else multiset{}
  }

  /** The loop `for width in (1..width + 1).rev()` of `count_number`, from
      width w down, with the value already shifted for that width. */
  function CountLoop(strategy: Strategy, tables: seq<Table>, u: nat, w: nat): (r: seq<Table>)
    requires w < |tables|
    ensures |r| == |tables|
    ensures forall j :: 0 <= j < |r| ==>
      r[j] == tables[j] + (if 1 <= j <= w && (strategy == EarlyCount || j == w)
                           then multiset{Drop(u, w - j)} else multiset{})
    decreases w
  {
    if w == 0 then tables
    else
      var t := tables[w := CountInto(tables[w], u, 1)];
      if strategy == LateCount then t
      else
        CountLoop(strategy, t, u / 16, w - 1)
  }

  /** `count_number(v, width)`: mask v to `width` nibbles with
      `HEX_MASKS[width]`, then count it (and, EarlyCount, its prefixes). */
  function CountNumber(strategy: Strategy, tables: seq<Table>, v: nat, width: nat): (r: seq<Table>)
    requires width < |tables| && width <= MAX_DIGITS
    ensures |r| == |tables|
    ensures forall w :: 0 <= w < |r| ==> r[w] == tables[w] + Added(strategy, v, width, w)
  {
    MaskIsBitAnd(v, width);
    CountLoop(strategy, tables, BitAnd(v, HEX_MASKS[width]), width)
  }

  /** What `count_number_end(v, width)` adds at width w under EarlyCount: the
      w-nibble prefix of `v & HEX_MASKS[k]` for every k in w..=width. */
  function EndAdds(v: nat, width: nat, w: nat): Table
  {
    if width < w || width == 0 then multiset{}
    else EndAdds(v, width - 1, w) + multiset{Drop(Mask(v, width), width - w)}
  }

  /** What `count_number_end(v, width)` adds at width w. */
  function EndAdded(strategy: Strategy, v: nat, width: nat, w: nat): Table
  {
    if w == 0 then multiset{}
    else if strategy == EarlyCount then EndAdds(v, width, w)
    else if w <= width then multiset{Mask(v, w)}
    else multiset{}
  }

  /** `count_number_end(v, width)`: count the masked value at every width
      from `width` down to 1. */
  function CountNumberEnd(strategy: Strategy, tables: seq<Table>, v: nat, width: nat): (r: seq<Table>)
    requires width < |tables| && width <= MAX_DIGITS
    ensures |r| == |tables|
    ensures forall w :: 0 <= w < |r| ==> r[w] == tables[w] + EndAdded(strategy, v, width, w)
    decreases width
  {
    if width == 0 then tables
    else
      var t := CountNumber(strategy, tables, v, width);
      var r := CountNumberEnd(strategy, t, v, width - 1);
      EndAddedStep(strategy, v, width);
      r
  }

  lemma EndAddedStep(strategy: Strategy, v: nat, width: nat)
    requires width >= 1
    ensures forall w ::
      EndAdded(strategy, v, width, w) == Added(strategy, v, width, w) + EndAdded(strategy, v, width - 1, w)
  {
    forall w ensures EndAdded(strategy, v, width, w)
      == Added(strategy, v, width, w) + EndAdded(strategy, v, width - 1, w)
    {
      if 1 <= w == width {
        assert Drop(Mask(v, width), 0) == Mask(v, width);
        if strategy == EarlyCount {
          assert EndAdds(v, width - 1, w) == multiset{};
        }
      }
    }
  }

  /** `count_number_mid(v, width)`: the window that leaves the register when
      it is full; the same call as `count_number`. */
  function CountNumberMid(strategy: Strategy, tables: seq<Table>, v: nat, width: nat): (r: seq<Table>)
    requires width < |tables| && width <= MAX_DIGITS
    ensures |r| == |tables|
    ensures forall w :: 0 <= w < |r| ==> r[w] == tables[w] + Added(strategy, v, width, w)
  {
    CountNumber(strategy, tables, v, width)
  }

  /** What `count_digit(b)` adds at width w: a non-hex byte flushes the
      register's run, a hex digit arriving at a full register counts the
      window that leaves it, any other hex digit counts nothing. */
  function DigitAdded(st: VariantState, b: Byte, w: nat): Table
  {
    if !IsHex(b) then
      if st.len != 0 then EndAdded(st.strategy, st.number, st.len, w) else multiset{}
    else if st.len == st.digits then Added(st.strategy, st.number, st.len, w)
    else multiset{}
  }

  /** `count_digit(byte)`.  A byte the table maps to 0xff ends the current
      run: its digits are counted with `count_number_end` and the register is
      emptied.  A hex digit is shifted into the register; when the register
      already holds `digits` digits, the oldest window is counted with
      `count_number_mid` first and dropped. */
  function CountDigit(st: VariantState, b: Byte): (r: VariantState)
    requires Valid(st)
    ensures Valid(r)
    ensures r.strategy == st.strategy && r.digits == st.digits
    ensures !IsHex(b) ==> r.len == 0 && r.number == st.number
    ensures IsHex(b) ==> r.number == Push(st.number, DigitValue(b))
                         && r.len == (if st.len == st.digits then st.digits else st.len + 1)
    ensures forall w :: 0 <= w <= st.digits ==> r.tables[w] == st.tables[w] + DigitAdded(st, b, w)
  {
    var v := DigitValue(b);    // the lookup DIGIT_MAP[b], by ClassifierTable
    if v == 0xff then
      if st.len != 0 then
        st.(tables := CountNumberEnd(st.strategy, st.tables, st.number, st.len), len := 0)
      else st
    else
      var st1 :=
        if st.len == st.digits then
          st.(tables := CountNumberMid(st.strategy, st.tables, st.number, st.len), len := st.len - 1)
        else st;
      PushBound(st1.number, v);
      st1.(number := Push(st1.number, v), len := st1.len + 1)
  }

  /** `count_digit_end`: count the digits still in the register. */
  function CountDigitEnd(st: VariantState): (r: VariantState)
    requires Valid(st)
    ensures Valid(r) && r.strategy == st.strategy && r.digits == st.digits
    ensures r.len == st.len && r.number == st.number
    ensures forall w :: 0 <= w <= st.digits ==>
      r.tables[w] == st.tables[w] + EndAdded(st.strategy, st.number, st.len, w)
  {
    if st.len != 0 then
      st.(tables := CountNumberEnd(st.strategy, st.tables, st.number, st.len))
    else st
  }

  /** `on_byte` over a whole input, left to right. */
  function Feed(st: VariantState, input: seq<Byte>): (r: VariantState)
    requires Valid(st)
    ensures Valid(r) && r.strategy == st.strategy && r.digits == st.digits
    decreases |input|
  {
    if input == [] then st
    else CountDigit(Feed(st, input[..|input| - 1]), input[|input| - 1])
  }

  /** The loop of `do_late_counts`: for d from `d` down to 2, every entry of
      table d adds its counter under `key >> 4` in table d - 1. */
  ghost function LateLoop(tables: seq<Table>, d: nat): (r: seq<Table>)
    requires d < |tables|
    ensures |r| == |tables|
    ensures forall w :: d <= w < |r| ==> r[w] == tables[w]
    ensures d >= 1 ==> r[0] == tables[0]
    decreases d
  {
    if d < 2 then tables
    else
      var (current, prev) := WidthAndPrevWidth(tables, d).value;
      LateLoop(tables[d - 1 := DeriveInto(prev, current)], d - 1)
  }

  /** `do_late_counts`: LateCount derives every narrower table from the one
      above it; EarlyCount has nothing left to do. */
  ghost function DoLateCounts(st: VariantState): (r: VariantState)
    requires Valid(st)
    ensures Valid(r) && r.strategy == st.strategy && r.digits == st.digits
    ensures r.len == st.len && r.number == st.number
    ensures st.strategy == EarlyCount ==> r.tables == st.tables
    ensures r.tables[st.digits] == st.tables[st.digits]
  {
    if st.strategy == LateCount then st.(tables := LateLoop(st.tables, st.digits))
    else st
  }

  /** `finalize`: count the last run, then the late counts. */
  ghost function Finalize(st: VariantState): (r: VariantState)
    requires Valid(st)
    ensures Valid(r) && r.strategy == st.strategy && r.digits == st.digits
  {
    DoLateCounts(CountDigitEnd(st))
  }

  /** Reading a rendered key back gives the key: a fitting key of width w
      is its own low w nibbles.  So distinct (width, key) pairs render to
      distinct texts, and the `assert!(map.insert(..).is_none())` of
      `into_count` never fires. */
  lemma RenderedKeysParse(tables: seq<Table>)
    requires KeysFit(tables)
    ensures forall w, v :: 1 <= w < |tables| && v in tables[w] ==>
      |Render(v, w)| == w && Value(Render(v, w)) == v
  {
    forall w, v | 1 <= w < |tables| && v in tables[w]
      ensures |Render(v, w)| == w && Value(Render(v, w)) == v
    {
      ValueOfRender(v, w);
      DivModUnique(v, 0, v, Pow16(w));
    }
  }

  /** `into_count`: every stored (width, key, counter) becomes the entry
      rendered key -> counter. */
  function IntoCount(st: VariantState): (r: map<seq<Byte>, nat>)
    requires Valid(st) && KeysFit(st.tables)
    ensures forall w, v :: 1 <= w <= st.digits && v in st.tables[w] ==>
      Render(v, w) in r && r[Render(v, w)] == st.tables[w][v]
    ensures forall k :: k in r ==>
      (1 <= |k| <= st.digits && exists v :: v in st.tables[|k|] && k == Render(v, |k|))
  {
    var keys := RenderedKeys(st.tables, st.digits);
    map k | k in keys :: st.tables[|k|][Value(k)]
  }

  /** The texts `into_count` inserts: every key of every table, rendered at
      its table's width; each reads back as the key it came from. */
  function RenderedKeys(tables: seq<Table>, digits: nat): (r: set<seq<Byte>>)
    requires digits < |tables| && KeysFit(tables)
    ensures forall w, v :: 1 <= w <= digits && v in tables[w] ==>
      Render(v, w) in r && |Render(v, w)| == w && Value(Render(v, w)) == v
    ensures forall k :: k in r ==>
      (1 <= |k| <= digits && exists v :: v in tables[|k|] && k == Render(v, |k|))
  {
    RenderedKeysParse(tables);
    set w, v | 1 <= w <= digits && v in tables[w] :: Render(v, w)
  }

  /** The whole `Process` life cycle: `new`, `on_byte` for every byte,
      `finalize`. */
  ghost function Run(strategy: Strategy, digits: nat, input: seq<Byte>): (r: Outcome<VariantState>)
    ensures r.Done? <==> 1 <= digits <= MAX_DIGITS
    ensures r.Done? ==> Valid(r.value) && r.value.digits == digits && r.value.strategy == strategy
  {
    match New(strategy, digits)
    case Panic(m) => Panic(m)
    case Done(st) => Done(Finalize(Feed(st, input)))
  }
}
