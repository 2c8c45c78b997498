# hex-digit-counter in Dafny

A model of the counting core of hex-digit-counter. The program reads a byte
stream and finds the maximal runs of hex digits ('0'-'9', 'a'-'f', 'A'-'F').
For every width w from 1 to D (D ≤ 16) it counts how often each numeric
value occurs as w consecutive digits inside one run.

The model covers five engines. Each is a pure step function folded over a
byte sequence (`seq<Byte>`, with `Byte` the integers 0..255):

- `Variant` (variant.rs): a u64 register plus one sparse table per width. A
  table is a `multiset<nat>`: key v occurs as often as its counter says.
  There are two strategies:
  - `EarlyCount` counts every prefix at once;
  - `LateCount` counts only the widest window, and `do_late_counts` later
    derives the narrower tables.
- `Kimundi` (kimundi.rs): `Context`, `BytesState` and `Variant1`. It is always
  eager.
- `Dense` (single_file.rs): one `seq<nat>` of 16^w slots per width. It follows
  the LateCount register logic and writes the result-file report.
- `Original` (original.rs): the reference engine. It keeps literal '_'-padded
  byte buffers and a `map<seq<Byte>, nat>`, and drops non-numeric keys at
  `finalize`.
- `MainLoop`: the skip rule. Every byte up to and including the first '.' is
  discarded, in front of a sparse engine (main.rs) and in front of the dense
  engine (single_file.rs).

`Occurrences.Windows(s, w)` is the specification every engine is measured
against: the multiset of the values of all all-hex width-w windows of s.

The headline theorems are:

- every window is counted exactly once (`LateCorrect.CountsWindows`);
- Eager ≡ Late after `do_late_counts` (`LateCorrect.StrategiesAgree`);
- kimundi ≡ `Variant<EarlyCount>` (`Kimundi.KimundiCountsWindows`);
- dense ≡ sparse (`Dense.DenseRunAgrees`);
- optimised ≡ reference on decimal input (`Original.ReferenceAgrees`).

The u64 register is a natural number below 2^64:

- `<<= 4` is `* 16 % 2^64`;
- `& HEX_MASKS[w]` is `% 16^w`, proved equal to a bitwise AND;
- `>>= 4` is `/ 16`.

Counters are unbounded naturals. A Rust panic is the `Panic` case of
`Counter.Outcome`.

## Model

| member | source | states |
|---|---|---|
| Classifier.DigitValue | src/variant.rs:3-18 | '0'-'9' give 0-9, 'A'-'F' and 'a'-'f' give 10-15, everything else the sentinel 255; any non-sentinel value is a nibble below 16 |
| Classifier.ClassifierTable | src/variant.rs:3-18 | the 256-entry `DIGIT_MAP` literal agrees with that range description at every byte |
| Classifier.ClassifierSamples | src/variant.rs:314-323 | the seven table entries the unit tests assert: 'a' and 'A' are 10, 'f' and 'F' are 15, '0' is 0, '9' is 9, '_' is 255 |
| Nibbles.HexMaskValue | src/variant.rs:20-38 | `HEX_MASKS[w]` is 16^w - 1 for every w in 0..=16 |
| Nibbles.MaskIsBitAnd | src/variant.rs:190 | `v & HEX_MASKS[w]`, as a bitwise AND, keeps exactly v mod 16^w |
| Nibbles.PushMask | src/variant.rs:178-180 | after shifting d into the u64 register (`<<= 4`, then OR), the low k ≤ 16 nibbles are the old low k-1 nibbles followed by d: the wrap-around at 2^64 loses nothing a mask keeps |
| Nibbles.PushBound | src/variant.rs:178-180 | the shifted register stays below 2^64 |
| Nibbles.DropIsDiv | src/variant.rs:191-194 | k rounds of `v >>= 4` divide by 16^k |
| Counter.NewCounter | src/variant.rs:98-104 | `HashMapCounter::new` makes digits + 1 tables, all empty |
| Counter.WidthAndPrevWidth | src/variant.rs:105-121 | the split succeeds exactly when 1 ≤ width < number of tables, and yields the tables of width and width - 1 |
| Counter.CountInto | src/variant.rs:89-92 | `entry(v).or_default() += delta` adds delta copies of key v and changes nothing else |
| Counter.DeriveIntoAddsPrefixes | src/variant.rs:218-222 | whatever order `for_each` visits the keys in, the previous table gains exactly the prefixes `key >> 4` of the current table, each with its key's counter |
| Counter.PrefixesCount | src/variant.rs:218-222 | the derived counter of p is the sum of the counters of its sixteen one-nibble extensions 16p..16p+15 |
| Rendering.HexChar | src/variant.rs:271-272 | a nibble becomes a lowercase hex character whose digit value is that nibble |
| Rendering.LsbFirst | src/variant.rs:269-275 | the inner loop writes exactly w characters |
| Rendering.Reverse | src/variant.rs:276 | `vec.reverse()` puts character i at position len - 1 - i |
| Rendering.Render | src/variant.rs:269-276 | a width-w key renders as exactly w characters |
| Rendering.RenderStep | src/variant.rs:270-276 | the last character of the rendering is the lowest nibble and the rest renders the remaining nibbles |
| Rendering.RenderIsLowerHex | src/variant.rs:272 | every rendered character is a lowercase hex digit |
| Rendering.ValueOfRender | src/variant.rs:269-276 | parsing a rendered key back as w hex digits gives the key's low w nibbles |
| Rendering.RenderInjective | src/variant.rs:277 | fitting keys render to equal texts only at the same width and the same value |
| Rendering.RenderOfValue | src/variant.rs:269-276 | a lowercase hex text is the rendering of its own value at its own length |
| Occurrences.EndWindow | src/variant.rs:165-180 | at most one window ends at the last byte, and it exists exactly when the last w bytes are all hex digits |
| Occurrences.NoLeakage | src/variant.rs:165-170 | no window reaches across a byte that is not a hex digit |
| Occurrences.WindowsBound | src/single_file.rs:130-134 | every width-w window value is below 16^w, so it indexes a width-w table in bounds |
| Occurrences.WindowsClosure | src/variant.rs:211-225 | inside a hex run, the width-w windows are the last one plus the prefixes of the width-(w+1) windows |
| Occurrences.WindowsOfRun | src/variant.rs:200-205 | a run of n hex digits has max(0, n - w + 1) windows of width w |
| Occurrences.WindowCountLaw | src/variant.rs:165-175 | the number of width-w windows is the sum over runs of max(0, n - w + 1) |
| Variant.New | src/variant.rs:133-160 | construction succeeds exactly for 1 ≤ digits ≤ 16, with digits + 1 empty tables and an empty register |
| Variant.CountLoop | src/variant.rs:191-197 | the loop counts `u >> 4(w - j)` at each width j from w down to 1 under EarlyCount, and stops after width w under LateCount |
| Variant.CountNumber | src/variant.rs:189-198 | EarlyCount adds the (v mod 16^w) / 16^(w-k) prefix at each width k = w..1; LateCount adds only v mod 16^w at width w |
| Variant.CountNumberEnd | src/variant.rs:200-205 | every width from `width` down to 1 is counted once |
| Variant.CountNumberMid | src/variant.rs:207-209 | the same increments as `count_number` |
| Variant.CountDigit | src/variant.rs:162-181 | a non-digit flushes the run and empties the register with the number kept; a digit at a full register counts the leaving window; the register stays within 0..=digits digits and below 2^64 |
| Variant.CountDigitEnd | src/variant.rs:183-187 | the last run is counted; the register is left as it is |
| Variant.Feed | src/variant.rs:256-258 | every byte keeps the state valid and the register bounded |
| Variant.LateLoop | src/variant.rs:214-223 | tables at and above the current width stay as they are, and table 0 is never touched |
| Variant.DoLateCounts | src/variant.rs:211-225 | EarlyCount leaves the tables alone; the widest table is never changed |
| Variant.Finalize | src/variant.rs:259-262 | `count_digit_end` then `do_late_counts` keep the state valid |
| Variant.RenderedKeysParse | src/variant.rs:263-282 | every stored key renders to a text of its width that parses back to the key |
| Variant.RenderedKeys | src/variant.rs:264-279 | the inserted texts are exactly the renderings of stored keys, each of length 1..=digits |
| Variant.IntoCount | src/variant.rs:263-282 | every stored (width, key, counter) is in the map under its rendering with its counter, and nothing else is |
| Variant.Run | src/variant.rs:252-262 | the life cycle succeeds exactly for 1 ≤ digits ≤ 16 |
| EarlyCorrect.RegisterWindow | src/variant.rs:178-180 | whenever the register holds at least w digits, its low w nibbles are the value of the last w digits read |
| EarlyCorrect.RegisterStep | src/variant.rs:162-181 | one byte keeps that register meaning, although the number is never cleared at a run boundary |
| EarlyCorrect.RegisterInvariant | src/variant.rs:256-258 | the register meaning holds after any input |
| EarlyCorrect.EndAddsAreWindows | src/variant.rs:200-205 | what `count_number_end` adds for a register that holds a run is every window of that run, once |
| EarlyCorrect.EarlyStep | src/variant.rs:162-181 | under EarlyCount, the tables plus the windows still in the register are always the windows read so far |
| EarlyCorrect.EarlyInvariant | src/variant.rs:256-258 | the same after any input |
| EarlyCorrect.EarlyEnd | src/variant.rs:183-187 | `count_digit_end` completes every table to the windows of the input |
| EarlyCorrect.EarlyCountsWindows | src/variant.rs:252-262 | after `finalize`, EarlyCount table w is exactly the multiset of width-w window values |
| LateCorrect.EndAddsCloses | src/variant.rs:189-205 | at every width, the eager flush adds the late flush plus the prefixes of the eager flush one width up |
| LateCorrect.FullAddedCloses | src/variant.rs:189-198 | the same for the window leaving a full register |
| LateCorrect.DigitAddedCloses | src/variant.rs:162-181 | the same for one `count_digit`, in all three cases |
| LateCorrect.ShadowStep | src/variant.rs:162-181 | one byte keeps a LateCount and an EarlyCount state related: same register, and each eager table is the late table plus the prefixes of the eager table one up |
| LateCorrect.ShadowFeed | src/variant.rs:256-258 | the relation holds after any input |
| LateCorrect.ShadowEnd | src/variant.rs:183-187 | `count_digit_end` keeps the relation |
| LateCorrect.LateLoopCloses | src/variant.rs:211-225 | processing widths strictly from D down to 2 adds to each table exactly the prefixes that were missing |
| LateCorrect.LateCatchesUp | src/variant.rs:211-225 | `do_late_counts` turns the LateCount tables into the EarlyCount ones |
| LateCorrect.StrategiesAgree | src/variant.rs:259-262 | after `finalize`, both strategies hold identical tables for the same bytes |
| LateCorrect.CountsWindows | src/variant.rs:252-262 | under either strategy, table w ends holding every width-w window of the input exactly once |
| Report.RunKeysFit | src/variant.rs:263-282 | after a run every key of table w is below 16^w, so `into_count`'s `insert(..).is_none()` assert never fires |
| Report.IntoCountMeaning | src/variant.rs:263-282 | a text is a key of the result exactly when it is lowercase hex, of width 1..=digits, and its value is some window's value; its counter is that window's number of occurrences |
| Report.IntoCountAgrees | src/variant.rs:263-282 | EarlyCount and LateCount hand back the same map |
| Report.KimundiIntoCount | src/kimundi.rs:159-182 | `Variant1::into_count` has the same meaning |
| Report.SumLaw | src/variant.rs:162-205 | the counters of table w add up to the sum over runs of max(0, n - w + 1) |
| Kimundi.NewContext | src/kimundi.rs:48-70 | succeeds exactly for digits ≤ 16, with digits + 1 empty tables |
| Kimundi.NewBytesState | src/kimundi.rs:128-139 | an empty register |
| Kimundi.New | src/kimundi.rs:147-152 | succeeds exactly for 1 ≤ digits ≤ 16, with an empty register and empty tables |
| Kimundi.CountLoop | src/kimundi.rs:101-105 | counts `u >> 4(w - j)` at every width j from w down to 1 |
| Kimundi.CountNumber | src/kimundi.rs:99-106 | always eager: adds the w successive prefixes of the masked value |
| Kimundi.CountNumberEnd | src/kimundi.rs:108-114 | counts every width from `width` down to 1 |
| Kimundi.CountNumberMid | src/kimundi.rs:116-119 | the same as `count_number` |
| Kimundi.CountDigit | src/kimundi.rs:72-91 | a non-digit resets the length, and a digit shifts in; the length stays within 0..=digits |
| Kimundi.CountDigitEnd | src/kimundi.rs:93-97 | table w gains exactly the width-w suffix windows of the register (nothing for an empty register), and the register is left unchanged |
| Kimundi.Feed | src/kimundi.rs:153-155 | every byte keeps the state valid |
| Kimundi.Run | src/kimundi.rs:146-158 | the life cycle succeeds exactly for 1 ≤ digits ≤ 16 |
| Kimundi.IntoCount | src/kimundi.rs:159-182 | every stored (width, key, counter) is in the map under its rendering, and every key of the map is such a rendering |
| Kimundi.CountDigitAgrees | src/kimundi.rs:72-91 | one byte does to the tables and register what `Variant<EarlyCount>::count_digit` does |
| Kimundi.CountDigitEndAgrees | src/kimundi.rs:93-97 | the same for `count_digit_end` |
| Kimundi.FeedAgrees | src/kimundi.rs:153-155 | the same over any input |
| Kimundi.KimundiCountsWindows | src/kimundi.rs:146-158 | `Variant1` ends with exactly the tables of `Variant<EarlyCount>`, hence with every window counted once |
| Scenarios.SampleWindowsOf | src/kimundi.rs:226-229 | the windows of "_1234_5678_90_7": at width 1, 7 twice and every other digit once; at width 2, exactly 12, 23, 34, 56, 67, 78 and 90 |
| Scenarios.KimundiSample | src/kimundi.rs:225-229 | kimundi with two digits on that input ends with those two tables |
| Scenarios.VariantSample | src/variant.rs:304 | `Variant<LateCount>` with two digits on that input ends with the same two tables |
| MainLoop.SkipToMarker | src/single_file.rs:177-181 | with no '.', nothing remains; otherwise what remains is the suffix after the first '.' |
| MainLoop.ProcessFile | src/main.rs:82-90 | processing a file succeeds exactly for 1 ≤ digits ≤ 16 |
| MainLoop.ProcessFileCounts | src/main.rs:82-90 | the result counts exactly the windows of the text after the first '.' |
| MainLoop.DenseProcessFile | src/single_file.rs:172-188 | processing a file with the dense engine succeeds exactly for 1 ≤ digits ≤ 14 |
| MainLoop.DenseProcessFileCounts | src/single_file.rs:172-188 | slot v of dense table w is the number of width-w windows of value v in the text after the first '.' |
| Dense.NewTables | src/single_file.rs:71-76 | table w is 16^w zero slots; pushing `vec![0; vec_len]` panics with "capacity overflow" once 16^w u64 counters exceed isize::MAX bytes, before `vec_len *= 16` could overflow |
| Dense.NewTablesFit | src/single_file.rs:71-76 | the widest table can be allocated exactly up to 14 digits; from 15 on it is 2^63 bytes |
| Dense.New | src/single_file.rs:67-98 | succeeds exactly for 1 ≤ digits ≤ 14; table w has 16^w slots, and table 0 is the single slot [0] |
| Dense.BagCount | src/single_file.rs:59-64 | read as a multiset, a slot vector holds key v as often as slot v says |
| Dense.Increment | src/single_file.rs:133 | `counter[v] += 1` adds one copy of v |
| Dense.CountHexstring | src/single_file.rs:130-134 | the masked register indexes table `width` in bounds and counts v mod 16^width there only |
| Dense.SuffixLoop | src/single_file.rs:136-142 | every width from `width` down to 1 counts its own masked value once |
| Dense.EndOfRun | src/single_file.rs:118-123 | each width 1..=len counts the low w nibbles once, then the length is 0 |
| Dense.CountDigit | src/single_file.rs:100-116 | the LateCount `count_digit`: at capacity only the full-width value is counted and the length stays D |
| Dense.Feed | src/single_file.rs:183-186 | every byte keeps the table sizes and the register bound |
| Dense.DeriveSlots | src/single_file.rs:164-167 | reading slots in index order, `prev[number >> 4] += count` stays in bounds and adds the prefixes of the slots read |
| Dense.Bump | src/single_file.rs:166 | adds c copies of key j |
| Dense.LateLoop | src/single_file.rs:161-169 | the dense derivation computes what the sparse loop computes on the same tables |
| Dense.DoLateCounts | src/single_file.rs:161-169 | `do_late_counts` matches the sparse LateCount one |
| Dense.Finalize | src/single_file.rs:125-128 | ends the last run and keeps the state valid |
| Dense.Run | src/single_file.rs:194-219 | the life cycle succeeds exactly for 1 ≤ digits ≤ 14 |
| Dense.CountDigitAgrees | src/single_file.rs:100-116 | one byte is what the sparse LateCount engine does |
| Dense.FeedAgrees | src/single_file.rs:183-186 | the same over any input |
| Dense.FinalizeAgrees | src/single_file.rs:125-128 | `finalize` ends with the sparse `finalize`'s tables |
| Dense.DenseRunAgrees | src/single_file.rs:125-128 | dense and sparse LateCount runs end with the same tables |
| Dense.DenseCountsWindows | src/single_file.rs:125-128 | slot v of table w ends holding the number of width-w windows of value v |
| Dense.Support | src/single_file.rs:154-159 | the nonzero slots, strictly ascending, all of them |
| Dense.NonZero | src/single_file.rs:237 | the nonzero counters, in slot order |
| Dense.Report | src/single_file.rs:236-239 | one line per table: the number of nonzero counters, then those counters in ascending key order; table 0 gives "0 []" |
| Dense.ReportMeaning | src/single_file.rs:236-239 | after a run, line w lists the distinct window values in ascending order, each with its number of occurrences |
| Original.IsNotNumeric | src/original.rs:4-11 | true exactly when some byte of the key is not numeric |
| Original.New | src/original.rs:19-26 | no counters; buffer i is i + 1 underscores |
| Original.Bump | src/original.rs:31 | one key's counter grows by one, from 0 when absent |
| Original.ShiftAt | src/original.rs:29-31 | buffer i drops its oldest byte, gains the new one and is counted |
| Original.OnByteFrom | src/original.rs:28-32 | the loop keeps every buffer's length |
| Original.OnByteFromBuffers | src/original.rs:28-32 | buffers from i on are shifted by the byte, earlier ones untouched |
| Original.OnByteFromCounts | src/original.rs:28-32 | each counter grows by the number of shifted buffers equal to its key |
| Original.OnByte | src/original.rs:27-33 | every buffer is shifted and counted once |
| Original.Feed | src/original.rs:27-33 | buffer i keeps length i + 1 |
| Original.Finalize | src/original.rs:34-40 | removes exactly the keys holding a non-numeric byte and leaves the other counters as they are |
| Original.FinalizeIdempotent | src/original.rs:34-40 | a second `finalize` changes nothing |
| Original.FinalizeDropsPadding | src/original.rs:34-40 | a key holding '_' padding never survives |
| Original.Run | src/original.rs:19-43 | the life cycle keeps one buffer per width |
| Original.FeedBuffers | src/original.rs:28-31 | after reading s, buffer i is the last i + 1 bytes of '_'^(i+1) ++ s |
| Original.FeedCounts | src/original.rs:27-33 | after reading s, the counter of a key is the number of times it was pushed |
| Original.PushedTotal | src/original.rs:27-33 | before `finalize`, digit keys are pushed per byte read, digit × bytes in all |
| Original.KeyAgrees | src/original.rs:41-43 | on decimal-only input, key by key, the reference map has the meaning of `Report.IntoCountMeaning` |
| Original.ReferenceAgrees | src/original.rs:27-43 | on input without 'a'-'f', 'A'-'F' or non-ASCII numeric bytes, the reference map equals `into_count` of variant.rs under either strategy |

## Left out

- Command-line parsing, file opening, memory mapping, buffered reading, timing, progress printing, writing the result file and SHA-256 hashing of the output: these are I/O and foreign crates. The report is modelled as a list of `ReportLine` values, not as text.
- alt_main.rs and gen_file.py are not part of this model: one is an I/O-inlined copy of original.rs, the other generates test data.
- The `main.rs` dispatch table is not modelled. It names `Original<StdNumeric>`/`Original<HexDigit>`, `VecCounter` and a two-parameter `Variant`, none of which exist in original.rs or variant.rs; the model follows those two files.
- Hash-map iteration order (FxHasher) is left open. `DeriveInto` takes any visiting order and is proved order-independent, and `into_count` builds a map, where order cannot matter.
- Debug printing (`_debug_output`, `print_count_number_single_masked`, commented-out `println!`) and the `masks` vectors built in `new` but never read.
- Memory feasibility of the 16^w dense tables is not modelled. Only the `Vec` capacity limit of isize::MAX bytes is, which refuses 15 digits and more; an allocator that runs out of memory for a smaller table is outside the model.
- u64 counter overflow: counters are unbounded naturals. The source relies on counts growing by 1 and never reaching 2^64.
- Variant.New: a width of 0 is refused at construction. The source accepts it. With overflow checks on (a debug build) it panics at the first hex digit, at `current_digits -= 1` (src/variant.rs:175). In a release build the subtraction wraps, `current_digits += 1` wraps it back to 0, `count_number(v, 0)` counts nothing, and every input yields an empty map. On input without hex digits both builds return an empty map.
- Kimundi.New: the same deviation for a width of 0 (src/kimundi.rs:85 and 90): a panic with overflow checks on, an empty map for every input in a release build.
- Variant.Run: inherits the Variant.New deviation. It is Done exactly for 1 ≤ digits ≤ 16, where the source also runs for a width of 0.
- Kimundi.Run: inherits the Kimundi.New deviation in the same way.
- MainLoop.ProcessFile: inherits the Variant.New deviation in the same way.
- Dense.New: the same deviation for a width of 0. The source reaches `prev.last_mut().unwrap()` on an empty split at the first hex digit.
- Original.Run: counters are `nat` where the source uses u128, and `into_count`'s u128 result is not squeezed into the trait's u64 counter type.
- Original.IsNumeric: `char::is_numeric` is modelled only for the 256 Latin-1 code points a byte can be: ASCII digits, '²', '³', '¹', '¼', '½' and '¾'.
- Original.PushedTotal: the "sum of all counts is digit × bytes" law is stated as the size of the multiset of pushed buffers, which `Original.FeedCounts` ties to every counter, not as a sum over the values of the map.
- Variant.CountDigit: the engines look a byte up with `DigitValue`, the range form of the table; `Classifier.ClassifierTable` proves it equal to `DIGIT_MAP[b]` at every byte. The same holds for Kimundi.CountDigit and Dense.CountDigit.
- Scenarios.KimundiSample: the kimundi test only prints the tables; the model proves what the print shows for this input. The other `test_main` inputs are not stated.
- Dense.Report: single_file.rs writes a line for every table including width 0, always "0 []"; the model keeps that line, as the code does.
