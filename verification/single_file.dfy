/** single_file.rs: the stand-alone dense engine.  Each width w has a
    `Vec<Counter>` of 16^w slots, slot v holding the count of key v; the
    register works as in variant.rs under LateCount, and `finalize` derives
    the narrower tables by walking every slot in index order. */
module Dense {
  import opened Classifier
  import opened Nibbles
  import opened Counter
  import opened Occurrences
  import Variant
  import LateCorrect

  /** One width's `Vec<Counter>`: slot v is the counter of key v. */
  type Slots = seq<nat>

  /** `Variant` of single_file.rs: map, digits, current_hexstring,
      current_digits. */
  datatype DenseState = DenseState(tables: seq<Slots>, digits: nat, number: nat, len: nat)

  /** The widest `new` can build: at 15 digits and above the last table,
      `vec![0; 16^15]` of u64 counters, is 2^63 bytes, more than a `Vec`
      may hold. */
  const DENSE_MAX_DIGITS: nat := 14

  /** The most bytes one `Vec` may span on a 64-bit target (isize::MAX). */
  const ISIZE_MAX: nat := 0x7FFF_FFFF_FFFF_FFFF

  /** `size_of::<Counter>()`: counters are u64. */
  const COUNTER_BYTES: nat := 8

  /** `vec![0; 16^w]` of counters stays within isize::MAX bytes; beyond it
      the allocation panics with "capacity overflow". */
  predicate AllocFits(w: nat)
  {
    Pow16(w) * COUNTER_BYTES <= ISIZE_MAX
  }

  /** Table w has one slot per w-nibble key. */
  predicate Sized(tables: seq<Slots>)
  {
    forall w :: 0 <= w < |tables| ==> |tables[w]| == Pow16(w)
  }

  /** A state `new` produces and every operation keeps: table 0 is the
      single slot no operation ever touches. */
  predicate Valid(st: DenseState)
  {
    1 <= st.digits <= MAX_DIGITS
    && |st.tables| == st.digits + 1
    && Sized(st.tables)
    && st.tables[0] == [0]
    && st.len <= st.digits
    && st.number < U64_MODULUS
  }

  /** The counters as a multiset of keys: key v occurs `t[v]` times
      (lemma BagCount). */
  ghost function Bag(t: Slots): Table
    decreases |t|
  {
    if t == [] then multiset{} else Bag(t[..|t| - 1]) + Rep(|t| - 1, t[|t| - 1])
  }

  lemma {:induction false} BagCount(t: Slots, v: nat)
    ensures Bag(t)[v] == if v < |t| then t[v] else 0
    decreases |t|
  {
    if t != [] {
      var n := |t| - 1;
      BagCount(t[..n], v);
    }
  }

  /** Every table as a multiset. */
  ghost function Bags(tables: seq<Slots>): (r: seq<Table>)
    ensures |r| == |tables| && forall w :: 0 <= w < |r| ==> r[w] == Bag(tables[w])
  {
    seq(|tables|, w requires 0 <= w < |tables| => Bag(tables[w]))
  }

  /** The dense state read as the sparse LateCount state of variant.rs. */
  ghost function Abstract(st: DenseState): (r: Variant.VariantState)
    requires Valid(st)
    ensures Variant.Valid(r) && r.strategy == Variant.LateCount
  {
    assert Bag(st.tables[0]) == multiset{} by {
      assert st.tables[0][..0] == [];
    }
    Variant.VariantState(Variant.LateCount, Bags(st.tables), st.digits, st.number, st.len)
  }

  /** Adding c at slot j adds c copies of key j. */
  lemma BagUpdate(t: Slots, j: nat, c: nat)
    requires j < |t|
    ensures Bag(t[j := t[j] + c]) == Bag(t) + Rep(j, c)
  {
    var a, b := Bag(t[j := t[j] + c]), Bag(t) + Rep(j, c);
    forall z ensures a[z] == b[z] {
      BagCount(t[j := t[j] + c], z);
      BagCount(t, z);
    }
  }

  function Zeros(n: nat): (r: Slots)
    ensures |r| == n && Bag(r) == multiset{}
  {
    var r := seq(n, _ => 0);
    forall z ensures Bag(r)[z] == 0 {
      BagCount(r, z);
    }
    r
  }

  /** The table loop of `new` from width i on: push `vec![0; vec_len]`,
      then `vec_len *= 16`, with vec_len = 16^i.  The push of the widest
      table fails first: whenever 16^i counters fit, 16^(i+1) is still
      below 2^64, so the multiplication never overflows. */
  function NewTables(i: nat, count: nat): (r: Outcome<seq<Slots>>)
    requires i <= count
    ensures r.Done? <==> i == count || AllocFits(count - 1)
    ensures r.Panic? ==> r.message == "capacity overflow"
    ensures r.Done? ==> |r.value| == count - i
    ensures r.Done? ==> forall j :: 0 <= j < |r.value| ==> r.value[j] == Zeros(Pow16(i + j))
    decreases count - i
  {
    if i == count then Done([])
    else if !AllocFits(i) then    // vec![0; vec_len]
      Pow16Monotone(i, count - 1);
      Panic("capacity overflow")
    else
      assert Pow16(i + 1) < U64_MODULUS;    // vec_len *= 16
      match NewTables(i + 1, count)
      case Panic(m) => Panic(m)
      case Done(rest) =>
        NewTablesCons(i, rest);
        Done([Zeros(Pow16(i))] + rest)
  }

  lemma NewTablesCons(i: nat, rest: seq<Slots>)
    requires forall j :: 0 <= j < |rest| ==> rest[j] == Zeros(Pow16(i + 1 + j))
    ensures forall j :: 0 <= j < |rest| + 1 ==> ([Zeros(Pow16(i))] + rest)[j] == Zeros(Pow16(i + j))
  {
    forall j | 0 <= j < |rest| + 1 ensures ([Zeros(Pow16(i))] + rest)[j] == Zeros(Pow16(i + j)) {
      if j > 0 {
        assert ([Zeros(Pow16(i))] + rest)[j] == rest[j - 1];
      }
    }
  }

  /** The widest table, 16^digits counters, can be allocated exactly up
      to 14 digits. */
  lemma NewTablesFit(digits: nat)
    requires digits <= MAX_DIGITS
    ensures AllocFits(digits) <==> digits <= DENSE_MAX_DIGITS
  {
    U64ModulusIsPow16();
    assert Pow16(16) == 16 * Pow16(15) && Pow16(15) == 16 * Pow16(14);
    if digits <= DENSE_MAX_DIGITS {
      Pow16Monotone(digits, 14);
    } else {
      Pow16Monotone(15, digits);
    }
  }

  /** `new(digits)`.  The assert refuses more than 16 digits, the table
      loop cannot allocate its widest table from 15 on, and a width of 0
      reaches `prev.last_mut().unwrap()` on an empty split at the first hex
      digit, so it is refused here. */
  function New(digits: nat): (r: Outcome<DenseState>)
    ensures r.Done? <==> 1 <= digits <= DENSE_MAX_DIGITS
    ensures r.Done? ==> Valid(r.value) && r.value.digits == digits && r.value.len == 0
                        && r.value.number == 0
                        && forall w :: 0 <= w <= digits ==> Bag(r.value.tables[w]) == multiset{}
  {
    if digits > MAX_DIGITS then Panic("assertion failed: std::mem::size_of::<HexString>() * 2 >= digits")
    else
      NewTablesFit(digits);
      match NewTables(0, digits + 1)
      case Panic(m) => Panic(m)
      case Done(t) =>
        if digits == 0 then Panic("called `Option::unwrap()` on a `None` value")
        else
          assert t[0] == Zeros(1) == [0];
          Done(DenseState(t, digits, 0, 0))
  }

  /** `counter[v] += 1`. */
  function Increment(t: Slots, v: nat): (r: Slots)
    requires v < |t|
    ensures |r| == |t| && Bag(r) == Bag(t) + multiset{v}
  {
    BagUpdate(t, v, 1);
    t[v := t[v] + 1]
  }

  /** `count_hexstring(width)`: the low `width` nibbles of the register
      index a slot of table `width`, always in bounds. */
  function CountHexstring(st: DenseState, width: nat): (r: DenseState)
    requires Valid(st) && 1 <= width <= st.digits
    ensures Valid(r) && r.digits == st.digits && r.number == st.number && r.len == st.len
    ensures forall w :: 0 <= w <= st.digits ==>
      Bag(r.tables[w]) == Bag(st.tables[w]) + Variant.Added(Variant.LateCount, st.number, width, w)
  {
    MaskIsBitAnd(st.number, width);
    var v := BitAnd(st.number, HEX_MASKS[width]);
    st.(tables := st.tables[width := Increment(st.tables[width], v)])
  }

  /** The loop of `count_hexstring_and_suffixes` from `width` down to 1. */
  function SuffixLoop(st: DenseState, width: nat): (r: DenseState)
    requires Valid(st) && width <= st.digits
    ensures Valid(r) && r.digits == st.digits && r.number == st.number && r.len == st.len
    ensures forall w :: 0 <= w <= st.digits ==>
      Bag(r.tables[w]) == Bag(st.tables[w]) + Variant.EndAdded(Variant.LateCount, st.number, width, w)
    decreases width
  {
    if width == 0 then st
    else
      var r := SuffixLoop(CountHexstring(st, width), width - 1);
      Variant.EndAddedStep(Variant.LateCount, st.number, width);
      r
  }

  /** `end_of_hexstring_run`: each width 1..=len counts the register's low
      w nibbles once, then the register is emptied. */
  function EndOfRun(st: DenseState): (r: DenseState)
    requires Valid(st)
    ensures Valid(r) && r.digits == st.digits && r.number == st.number && r.len == 0
    ensures forall w :: 0 <= w <= st.digits ==>
      Bag(r.tables[w]) == Bag(st.tables[w])
                          + (if 1 <= w <= st.len then multiset{Mask(st.number, w)} else multiset{})
  {
    if st.len != 0 then SuffixLoop(st, st.len).(len := 0) else st
  }

  /** `count_digit(byte)`: the three cases of variant.rs under LateCount. */
  function CountDigit(st: DenseState, b: Byte): (r: DenseState)
    requires Valid(st)
    ensures Valid(r) && r.digits == st.digits
    ensures !IsHex(b) ==> r.len == 0 && r.number == st.number
    ensures IsHex(b) ==> r.number == Push(st.number, DigitValue(b))
                         && r.len == (if st.len == st.digits then st.digits else st.len + 1)
    ensures forall w :: 0 <= w <= st.digits ==>
      Bag(r.tables[w]) == Bag(st.tables[w]) + Variant.DigitAdded(Abstract(st), b, w)
  {
    var v := DigitValue(b);    // the lookup DIGIT_MAP[b], by ClassifierTable
    if v == 0xff then EndOfRun(st)
    else
      var st1 := if st.len == st.digits then CountHexstring(st, st.len).(len := st.len - 1) else st;
      PushBound(st1.number, v);
      st1.(number := Push(st1.number, v), len := st1.len + 1)
  }

  /** `count_digit` over a whole input. */
  function Feed(st: DenseState, input: seq<Byte>): (r: DenseState)
    requires Valid(st)
    ensures Valid(r) && r.digits == st.digits
    decreases |input|
  {
    if input == [] then st else CountDigit(Feed(st, input[..|input| - 1]), input[|input| - 1])
  }

  /** The inner loop of `do_late_counts` over the first n slots of the
      current table, in index order: `prev[number >> 4] += count`. */
  function DeriveSlots(prev: Slots, cur: Slots, n: nat): (r: Slots)
    requires n <= |cur| <= 16 * |prev|
    ensures |r| == |prev|
    ensures Bag(r) == Bag(prev) + Prefixes(Bag(cur[..n]))
    decreases n
  {
    if n == 0 then
      assert Bag(cur[..0]) == multiset{};
      LateCorrect.PrefixesEmpty();
      prev
    else
      var p := DeriveSlots(prev, cur, n - 1);
      DivBelow(n - 1, |prev|);
      DeriveSlotsStep(cur, n);
      Bump(p, (n - 1) / 16, cur[n - 1])
  }

  /** One more slot read adds its counter under its prefix. */
  lemma DeriveSlotsStep(cur: Slots, n: nat)
    requires 1 <= n <= |cur|
    ensures Prefixes(Bag(cur[..n])) == Prefixes(Bag(cur[..n - 1])) + Rep((n - 1) / 16, cur[n - 1])
  {
    var k, c := n - 1, cur[n - 1];
    var before, added := Bag(cur[..k]), Rep(k, c);
    assert Bag(cur[..n]) == before + added by {
      assert cur[..n][..k] == cur[..k];
    }
    PrefixesAdd(before, added);
    PrefixesRep(k, c);
  }

  /** `prev[j] += c`. */
  function Bump(t: Slots, j: nat, c: nat): (r: Slots)
    requires j < |t|
    ensures |r| == |t| && Bag(r) == Bag(t) + Rep(j, c)
  {
    BagUpdate(t, j, c);
    t[j := t[j] + c]
  }

  lemma DivBelow(k: nat, m: nat)
    requires k < 16 * m
    ensures k / 16 < m
  {
  }

  /** The loop `for digits in (2..=self.digits).rev()` of `do_late_counts`,
      from width d down. */
  function LateLoop(tables: seq<Slots>, d: nat): (r: seq<Slots>)
    requires d < |tables| && Sized(tables)
    ensures |r| == |tables| && Sized(r)
    ensures d >= 1 ==> r[0] == tables[0]
    ensures Bags(r) == Variant.LateLoop(Bags(tables), d)
    decreases d
  {
    if d < 2 then tables
    else
      var (current, prev) := (tables[d], tables[d - 1]);
      SizedStep(tables, d);
      var derived := DeriveSlots(prev, current, |current|);
      LateLoopStep(tables, d, derived);
      LateLoop(tables[d - 1 := derived], d - 1)
  }

  lemma LateLoopStep(tables: seq<Slots>, d: nat, derived: Slots)
    requires 2 <= d < |tables| && Sized(tables)
    requires |derived| == |tables[d - 1]|
    requires Bag(derived) == Bag(tables[d - 1]) + Prefixes(Bag(tables[d][..|tables[d]|]))
    ensures Sized(tables[d - 1 := derived])
    ensures Variant.LateLoop(Bags(tables), d)
         == Variant.LateLoop(Bags(tables[d - 1 := derived]), d - 1)
  {
    var t := Bags(tables);
    assert Bag(derived) == DeriveInto(t[d - 1], t[d]) by {
      assert tables[d][..|tables[d]|] == tables[d];
      DeriveIntoAddsPrefixes(t[d - 1], t[d]);
    }
    BagsUpdate(tables, d - 1, derived);
    SizedUpdate(tables, d - 1, derived);
    LateLoopUnfold(t, d);
  }

  /** Each table has sixteen slots per slot of the table below. */
  lemma SizedStep(tables: seq<Slots>, d: nat)
    requires 1 <= d < |tables| && Sized(tables)
    ensures |tables[d]| == 16 * |tables[d - 1]|
  {
    assert |tables[d]| == Pow16(d) && |tables[d - 1]| == Pow16(d - 1);
  }

  lemma BagsUpdate(tables: seq<Slots>, j: nat, x: Slots)
    requires j < |tables|
    ensures Bags(tables[j := x]) == Bags(tables)[j := Bag(x)]
  {
    var a, b := Bags(tables[j := x]), Bags(tables)[j := Bag(x)];
    forall w | 0 <= w < |a| ensures a[w] == b[w] {
    }
  }

  lemma SizedUpdate(tables: seq<Slots>, j: nat, x: Slots)
    requires j < |tables| && Sized(tables) && |x| == |tables[j]|
    ensures Sized(tables[j := x])
  {
    var next := tables[j := x];
    forall w | 0 <= w < |next| ensures |next[w]| == Pow16(w) {
    }
  }

  /** One round of the sparse loop. */
  lemma LateLoopUnfold(t: seq<Table>, d: nat)
    requires 2 <= d < |t|
    ensures Variant.LateLoop(t, d) == Variant.LateLoop(t[d - 1 := DeriveInto(t[d - 1], t[d])], d - 1)
  {
  }

  /** `do_late_counts`. */
  function DoLateCounts(st: DenseState): (r: DenseState)
    requires Valid(st)
    ensures Valid(r) && r.digits == st.digits && r.number == st.number && r.len == st.len
    ensures Bags(r.tables) == Variant.DoLateCounts(Abstract(st)).tables
  {
    st.(tables := LateLoop(st.tables, st.digits))
  }

  /** `finalize`: end the last run, then the late counts. */
  function Finalize(st: DenseState): (r: DenseState)
    requires Valid(st)
    ensures Valid(r) && r.digits == st.digits && r.len == 0
  {
    DoLateCounts(EndOfRun(st))
  }

  /** `new`, `count_digit` for every byte, then `finalize`.  The input is
      what `main_loop` hands on: the bytes after the first '.', as
      `MainLoop.SkipToMarker` cuts them and `MainLoop.DenseProcessFile`
      composes. */
  function Run(digits: nat, input: seq<Byte>): (r: Outcome<DenseState>)
    ensures r.Done? <==> 1 <= digits <= DENSE_MAX_DIGITS
    ensures r.Done? ==> Valid(r.value) && r.value.digits == digits
  {
    match New(digits)
    case Panic(m) => Panic(m)
    case Done(st) => Done(Finalize(Feed(st, input)))
  }

  /** Reading one byte is what the sparse LateCount engine does. */
  lemma CountDigitAgrees(st: DenseState, b: Byte)
    requires Valid(st)
    ensures Abstract(CountDigit(st, b)) == Variant.CountDigit(Abstract(st), b)
  {
    var r, q := Abstract(CountDigit(st, b)), Variant.CountDigit(Abstract(st), b);
    assert r.tables == q.tables by {
      forall w | 0 <= w < |q.tables| ensures r.tables[w] == q.tables[w] {
      }
    }
  }

  lemma {:induction false} FeedAgrees(st: DenseState, input: seq<Byte>)
    requires Valid(st)
    ensures Abstract(Feed(st, input)) == Variant.Feed(Abstract(st), input)
    decreases |input|
  {
    if input != [] {
      var p := input[..|input| - 1];
      FeedAgrees(st, p);
      CountDigitAgrees(Feed(st, p), input[|input| - 1]);
    }
  }

  /** `finalize` ends with the tables the sparse engine ends with. */
  lemma FinalizeAgrees(st: DenseState)
    requires Valid(st)
    ensures Bags(Finalize(st).tables) == Variant.Finalize(Abstract(st)).tables
  {
    var e, q := EndOfRun(st), Variant.CountDigitEnd(Abstract(st));
    assert Abstract(e).tables == q.tables by {
      forall w | 0 <= w < |q.tables| ensures Abstract(e).tables[w] == q.tables[w] {
      }
    }
    assert Abstract(e) == q.(len := 0);
  }

  /** The dense engine ends with the tables of the sparse LateCount engine. */
  lemma DenseRunAgrees(digits: nat, input: seq<Byte>)
    requires 1 <= digits <= DENSE_MAX_DIGITS
    ensures Run(digits, input).Done? && Variant.Run(Variant.LateCount, digits, input).Done?
    ensures Bags(Run(digits, input).value.tables) == Variant.Run(Variant.LateCount, digits, input).value.tables
  {
    var st := New(digits).value;
    assert Abstract(st) == Variant.New(Variant.LateCount, digits).value;
    FeedAgrees(st, input);
    FinalizeAgrees(Feed(st, input));
  }

  /** Slot v of table w ends holding the number of all-hex width-w windows
      of the input whose value is v. */
  lemma DenseCountsWindows(digits: nat, input: seq<Byte>)
    requires 1 <= digits <= DENSE_MAX_DIGITS
    ensures Run(digits, input).Done?
    ensures forall w, v: nat :: 1 <= w <= digits && v < Pow16(w) ==>
      Run(digits, input).value.tables[w][v] == Windows(input, w)[v]
  {
    DenseRunAgrees(digits, input);
    LateCorrect.CountsWindows(Variant.LateCount, digits, input);
    SlotsAreWindows(Run(digits, input).value, input);
  }

  lemma SlotsAreWindows(st: DenseState, input: seq<Byte>)
    requires Valid(st)
    requires forall w :: 1 <= w <= st.digits ==> Bags(st.tables)[w] == Windows(input, w)
    ensures forall w, v: nat :: 1 <= w <= st.digits && v < Pow16(w) ==> st.tables[w][v] == Windows(input, w)[v]
  {
    forall w, v: nat | 1 <= w <= st.digits && v < Pow16(w) ensures st.tables[w][v] == Windows(input, w)[v] {
      BagCount(st.tables[w], v);
      assert Bags(st.tables)[w] == Bag(st.tables[w]);
    }
  }

  /** The slots whose counter is nonzero, in ascending order. */
  function Support(t: Slots): (r: seq<nat>)
    ensures forall j :: 0 <= j < |r| ==> r[j] < |t| && t[r[j]] > 0
    ensures forall j, k :: 0 <= j < k < |r| ==> r[j] < r[k]
    ensures forall v :: 0 <= v < |t| && t[v] > 0 ==> v in r
    decreases |t|
  {
    if t == [] then []
    else
      var n := |t| - 1;
      var r := Support(t[..n]) + (if t[n] > 0 then [n] else []);
      assert forall v :: 0 <= v < n ==> t[..n][v] == t[v];
      r
  }

  /** `vec.iter().filter(|v| **v > 0)`: the nonzero counters, in slot
      order. */
  function NonZero(t: Slots): (r: seq<nat>)
    ensures |r| == |Support(t)|
    ensures forall j :: 0 <= j < |r| ==> r[j] == t[Support(t)[j]]
    decreases |t|
  {
    if t == [] then []
    else
      var n := |t| - 1;
      var r := NonZero(t[..n]) + (if t[n] > 0 then [t[n]] else []);
      assert forall v :: 0 <= v < n ==> t[..n][v] == t[v];
      r
  }

  /** One line `"{} {:?}\n"` of the result file: how many counters of a
      table are nonzero, then those counters. */
  datatype ReportLine = ReportLine(size: nat, counters: seq<nat>)

  /** The result file: one line per table, table 0 first. */
  function Report(st: DenseState): (r: seq<ReportLine>)
    requires Valid(st)
    ensures |r| == st.digits + 1
    ensures r[0] == ReportLine(0, [])
    ensures forall w :: 0 <= w < |r| ==>
      r[w].size == |r[w].counters| == |Support(st.tables[w])|
      && forall j :: 0 <= j < |r[w].counters| ==> r[w].counters[j] == st.tables[w][Support(st.tables[w])[j]]
  {
    assert Support(st.tables[0]) == [] by {
      assert st.tables[0][..0] == [];
    }
    seq(|st.tables|, w requires 0 <= w < |st.tables| =>
      var line := NonZero(st.tables[w]);
      ReportLine(|line|, line))
  }

  /** After a run, line w lists, for each distinct width-w window value in
      ascending order, how many times it occurs; line 0 is empty. */
  lemma ReportMeaning(digits: nat, input: seq<Byte>)
    requires 1 <= digits <= DENSE_MAX_DIGITS
    ensures Run(digits, input).Done?
    ensures Report(Run(digits, input).value)[0] == ReportLine(0, [])
    ensures forall w :: 1 <= w <= digits ==> ReportLineMeans(Run(digits, input).value, input, w)
  {
    DenseCountsWindows(digits, input);
    var st := Run(digits, input).value;
    forall w | 1 <= w <= digits ensures ReportLineMeans(st, input, w) {
      LineMeans(st, input, w);
    }
  }

  lemma LineMeans(st: DenseState, input: seq<Byte>, w: nat)
    requires Valid(st) && 1 <= w <= st.digits
    requires forall v: nat :: v < Pow16(w) ==> st.tables[w][v] == Windows(input, w)[v]
    ensures ReportLineMeans(st, input, w)
  {
    WindowsBound(input, w);
    var t, m := st.tables[w], Windows(input, w);
    assert |t| == Pow16(w);
    var keys, line := Support(t), Report(st)[w];
    forall v ensures v in m <==> v in keys {
      if v in m {
        assert t[v] == m[v];
      }
    }
  }

  /** Line w: the slots listed are the window values, and each counter is
      that value's number of windows. */
  ghost predicate ReportLineMeans(st: DenseState, input: seq<Byte>, w: nat)
    requires Valid(st) && 1 <= w <= st.digits
  {
    var keys, line := Support(st.tables[w]), Report(st)[w];
    (forall v :: v in Windows(input, w) <==> v in keys)
    && forall j :: 0 <= j < |line.counters| ==> line.counters[j] == Windows(input, w)[keys[j]]
  }
}
