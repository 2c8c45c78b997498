/** kimundi.rs: the first engine.  `Context` holds the per-width tables and
    always counts every prefix at once; the register lives apart from it in
    `BytesState`; `Variant1` pairs the two behind the `Process` life cycle.
    It computes what `Variant` computes under EarlyCount, step for step. */
module Kimundi {
  import opened Classifier
  import opened Nibbles
  import opened Counter
  import opened Occurrences
  import Variant
  import LateCorrect
  import opened Rendering

  /** `Context`: count_maps and digits. */
  datatype Context = Context(tables: seq<Table>, digits: nat)

  /** `BytesState`: digits, current_number, current_digits. */
  datatype BytesState = BytesState(digits: nat, number: nat, len: nat)

  /** `Variant1`: a context and the register state that drives it. */
  datatype Variant1 = Variant1(ctx: Context, state: BytesState)

  /** One table per width 0..=digits, nothing at width 0. */
  predicate ContextValid(ctx: Context)
  {
    1 <= ctx.digits <= MAX_DIGITS && |ctx.tables| == ctx.digits + 1 && ctx.tables[0] == multiset{}
  }

  /** The register fits in a u64 and holds at most `digits` digits. */
  predicate StateValid(st: BytesState)
  {
    st.len <= st.digits && st.number < U64_MODULUS
  }

  predicate Valid(p: Variant1)
  {
    ContextValid(p.ctx) && StateValid(p.state) && p.state.digits == p.ctx.digits
  }

  /** `Context::new`.  The masks vector it builds is never read. */
  function NewContext(digits: nat): (r: Outcome<Context>)
    ensures r.Done? <==> digits <= MAX_DIGITS
    ensures r.Done? ==> r.value.digits == digits && |r.value.tables| == digits + 1
                        && forall w :: 0 <= w <= digits ==> r.value.tables[w] == multiset{}
  {
    if digits > MAX_DIGITS then Panic("assertion failed: std::mem::size_of::<Number>() * 2 >= digits")
    else Done(Context(NewCounter(digits), digits))
  }

  /** `BytesState::new`: an empty register. */
  function NewBytesState(digits: nat): (r: BytesState)
    ensures r.digits == digits && r.len == 0 && StateValid(r)
  {
    BytesState(digits, 0, 0)
  }

  /** `Variant1::new`.  A width of 0 passes the assert; with overflow checks
      on it panics at `current_digits -= 1` on the first hex digit, without
      them it counts nothing.  It is refused here. */
  function New(digits: nat): (r: Outcome<Variant1>)
    ensures r.Done? <==> 1 <= digits <= MAX_DIGITS
    ensures r.Done? ==> Valid(r.value) && r.value.ctx.digits == digits && r.value.state.len == 0
                        && r.value.state.number == 0
                        && forall w :: 0 <= w <= digits ==> r.value.ctx.tables[w] == multiset{}
  {
    match NewContext(digits)
    case Panic(m) => Panic(m)
    case Done(ctx) =>
      if digits == 0 then Panic("attempt to subtract with overflow")
      else Done(Variant1(ctx, NewBytesState(digits)))
  }

  /** The loop of `Context::count_number`: every width from w down to 1,
      counting u and then shifting out its lowest nibble; no early exit. */
  function CountLoop(tables: seq<Table>, u: nat, w: nat): (r: seq<Table>)
    requires w < |tables|
    ensures |r| == |tables|
    ensures forall j :: 0 <= j < |r| ==>
      r[j] == tables[j] + (if 1 <= j <= w then multiset{Drop(u, w - j)} else multiset{})
    decreases w
  {
    if w == 0 then tables
    else CountLoop(tables[w := CountInto(tables[w], u, 1)], u / 16, w - 1)
  }

  /** `Context::count_number`: mask to `width` nibbles, then count the value
      and each of its prefixes. */
  function CountNumber(ctx: Context, v: nat, width: nat): (r: Context)
    requires width < |ctx.tables| && width <= MAX_DIGITS
    ensures r.digits == ctx.digits && |r.tables| == |ctx.tables|
    ensures forall w :: 0 <= w < |r.tables| ==>
      r.tables[w] == ctx.tables[w] + Variant.Added(Variant.EarlyCount, v, width, w)
  {
    MaskIsBitAnd(v, width);
    ctx.(tables := CountLoop(ctx.tables, BitAnd(v, HEX_MASKS[width]), width))
  }

  /** `Context::count_number_end`: `while width != 0 { count_number(v, width);
      width -= 1 }`. */
  function CountNumberEnd(ctx: Context, v: nat, width: nat): (r: Context)
    requires width < |ctx.tables| && width <= MAX_DIGITS
    ensures r.digits == ctx.digits && |r.tables| == |ctx.tables|
    ensures forall w :: 0 <= w < |r.tables| ==>
      r.tables[w] == ctx.tables[w] + Variant.EndAdded(Variant.EarlyCount, v, width, w)
    decreases width
  {
    if width == 0 then ctx
    else
      var r := CountNumberEnd(CountNumber(ctx, v, width), v, width - 1);
      Variant.EndAddedStep(Variant.EarlyCount, v, width);
      r
  }

  /** `Context::count_number_mid`: the same call as `count_number`. */
  function CountNumberMid(ctx: Context, v: nat, width: nat): (r: Context)
    requires width < |ctx.tables| && width <= MAX_DIGITS
    ensures r.digits == ctx.digits && |r.tables| == |ctx.tables|
    ensures forall w :: 0 <= w < |r.tables| ==>
      r.tables[w] == ctx.tables[w] + Variant.Added(Variant.EarlyCount, v, width, w)
  {
    CountNumber(ctx, v, width)
  }

  /** `Context::count_digit(byte, state)`: the same three cases as in
      variant.rs, with the register passed in and handed back. */
  function CountDigit(p: Variant1, b: Byte): (r: Variant1)
    requires Valid(p)
    ensures Valid(r) && r.ctx.digits == p.ctx.digits
    ensures !IsHex(b) ==> r.state.len == 0 && r.state.number == p.state.number
    ensures IsHex(b) ==> r.state.number == Push(p.state.number, DigitValue(b))
                         && r.state.len == (if p.state.len == p.state.digits then p.state.digits
                                            else p.state.len + 1)
  {
    var (ctx, st) := (p.ctx, p.state);
    var v := DigitValue(b);    // the lookup DIGIT_MAP[b], by ClassifierTable
    if v == 0xff then
      if st.len != 0 then
        Variant1(CountNumberEnd(ctx, st.number, st.len), st.(len := 0))
      else p
    else
      var (ctx1, st1) :=
        if st.len == st.digits then (CountNumberMid(ctx, st.number, st.len), st.(len := st.len - 1))
        else (ctx, st);
      PushBound(st1.number, v);
      Variant1(ctx1, st1.(number := Push(st1.number, v), len := st1.len + 1))
  }

  /** `Context::count_digit_end`: count what is left in the register, every
      suffix width of a non-empty run; the register itself is kept. */
  function CountDigitEnd(p: Variant1): (r: Variant1)
    requires Valid(p)
    ensures Valid(r) && r.state == p.state && r.ctx.digits == p.ctx.digits
    ensures forall w :: 0 <= w <= p.ctx.digits ==>
      r.ctx.tables[w] == p.ctx.tables[w] + Variant.EndAdded(Variant.EarlyCount, p.state.number, p.state.len, w)
  {
    if p.state.len != 0 then p.(ctx := CountNumberEnd(p.ctx, p.state.number, p.state.len))
    else p
  }

  /** `on_byte` over a whole input. */
  function Feed(p: Variant1, input: seq<Byte>): (r: Variant1)
    requires Valid(p)
    ensures Valid(r) && r.ctx.digits == p.ctx.digits
    decreases |input|
  {
    if input == [] then p else CountDigit(Feed(p, input[..|input| - 1]), input[|input| - 1])
  }

  /** `new`, `on_byte` for every byte, `finalize`. */
  function Run(digits: nat, input: seq<Byte>): (r: Outcome<Variant1>)
    ensures r.Done? <==> 1 <= digits <= MAX_DIGITS
    ensures r.Done? ==> Valid(r.value) && r.value.ctx.digits == digits
  {
    match New(digits)
    case Panic(m) => Panic(m)
    case Done(p) => Done(CountDigitEnd(Feed(p, input)))
  }

  /** The same engine seen as a `Variant` under EarlyCount. */
  function AsVariant(p: Variant1): (r: Variant.VariantState)
    requires Valid(p)
    ensures Variant.Valid(r) && r.strategy == Variant.EarlyCount
  {
    Variant.VariantState(Variant.EarlyCount, p.ctx.tables, p.ctx.digits, p.state.number, p.state.len)
  }

  /** `Variant1::into_count`: the same rendering as variant.rs. */
  function IntoCount(p: Variant1): (r: map<seq<Byte>, nat>)
    requires Valid(p) && Variant.KeysFit(p.ctx.tables)
    ensures forall w, v :: 1 <= w <= p.ctx.digits && v in p.ctx.tables[w] ==>
      Render(v, w) in r && r[Render(v, w)] == p.ctx.tables[w][v]
    ensures forall k :: k in r ==>
      (1 <= |k| <= p.ctx.digits && exists v :: v in p.ctx.tables[|k|] && k == Render(v, |k|))
  {
    Variant.IntoCount(AsVariant(p))
  }

  /** Reading one byte does to the tables exactly what `Variant::count_digit`
      does under EarlyCount. */
  lemma CountDigitAgrees(p: Variant1, b: Byte)
    requires Valid(p)
    ensures AsVariant(CountDigit(p, b)) == Variant.CountDigit(AsVariant(p), b)
  {
    var r, q := CountDigit(p, b), Variant.CountDigit(AsVariant(p), b);
    assert r.ctx.tables == q.tables by {
      forall w | 0 <= w < |q.tables| ensures r.ctx.tables[w] == q.tables[w] {
        assert Variant.DigitAdded(AsVariant(p), b, w)
            == if !IsHex(b) then (if p.state.len != 0
                                 then Variant.EndAdded(Variant.EarlyCount, p.state.number, p.state.len, w)
                                 else multiset{})
               else if p.state.len == p.state.digits
               then Variant.Added(Variant.EarlyCount, p.state.number, p.state.len, w)
               else multiset{};
      }
    }
  }

  lemma CountDigitEndAgrees(p: Variant1)
    requires Valid(p)
    ensures AsVariant(CountDigitEnd(p)) == Variant.CountDigitEnd(AsVariant(p))
  {
    var r, q := CountDigitEnd(p), Variant.CountDigitEnd(AsVariant(p));
    assert r.ctx.tables == q.tables by {
      forall w | 0 <= w < |q.tables| ensures r.ctx.tables[w] == q.tables[w] {
      }
    }
  }

  lemma {:induction false} FeedAgrees(p: Variant1, input: seq<Byte>)
    requires Valid(p)
    ensures AsVariant(Feed(p, input)) == Variant.Feed(AsVariant(p), input)
    decreases |input|
  {
    if input != [] {
      var q := input[..|input| - 1];
      FeedAgrees(p, q);
      CountDigitAgrees(Feed(p, q), input[|input| - 1]);
    }
  }

  /** `Variant1` finishes with the tables `Variant` finishes with under
      EarlyCount, hence with every hex window of the input counted once per
      occurrence at its width. */
  lemma KimundiCountsWindows(digits: nat, input: seq<Byte>)
    requires 1 <= digits <= MAX_DIGITS
    ensures Run(digits, input).Done? && Variant.Run(Variant.EarlyCount, digits, input).Done?
    ensures AsVariant(Run(digits, input).value) == Variant.Run(Variant.EarlyCount, digits, input).value
    ensures forall w :: 1 <= w <= digits ==> Run(digits, input).value.ctx.tables[w] == Windows(input, w)
  {
    var p := New(digits).value;
    assert AsVariant(p) == Variant.New(Variant.EarlyCount, digits).value;
    FeedAgrees(p, input);
    CountDigitEndAgrees(Feed(p, input));
    LateCorrect.CountsWindows(Variant.EarlyCount, digits, input);
  }
}
