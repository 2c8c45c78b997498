/** The worked example of kimundi.rs's `test_main`: "_1234_5678_90_7" with
    two digits. */
module Scenarios {
  import opened Classifier
  import opened Digits
  import opened Occurrences
  import Kimundi
  import Variant
  import LateCorrect

  /** b"_1234_5678_90_7" */
  const SAMPLE: seq<Byte> := [95, 49, 50, 51, 52, 95, 53, 54, 55, 56, 95, 57, 48, 95, 55]

  /** The value of two hex digits read as a width-2 window. */
  function Pair(a: Byte, b: Byte): nat
  {
    DigitValue(a) * 16 + DigitValue(b)
  }

  /** The one-digit window ending the input. */
  lemma EndOne(s: seq<Byte>)
    requires s != []
    ensures EndWindow(s, 1) == if IsHex(s[|s| - 1]) then multiset{DigitValue(s[|s| - 1])} else multiset{}
  {
    var x := s[|s| - 1..];
    assert x == [s[|s| - 1]] && x[..0] == [];
    assert AllHex(x) <==> IsHex(x[0]);
    assert Value(x) == Value(x[..0]) * 16 + DigitValue(x[0]);
  }

  /** The two-digit window ending the input. */
  lemma EndTwo(s: seq<Byte>)
    requires |s| >= 2
    ensures EndWindow(s, 2) ==
      if IsHex(s[|s| - 2]) && IsHex(s[|s| - 1])
      then multiset{Pair(s[|s| - 2], s[|s| - 1])}
      else multiset{}
  {
    var x := s[|s| - 2..];
    assert x == [s[|s| - 2], s[|s| - 1]] && x[..1] == [s[|s| - 2]] && x[..1][..0] == [];
    assert AllHex(x) <==> IsHex(x[0]) && IsHex(x[1]);
    assert Value(x[..1]) == Value(x[..1][..0]) * 16 + DigitValue(x[0]);
    assert Value(x) == Value(x[..1]) * 16 + DigitValue(x[1]);
  }

  lemma EndOneSnoc(p: seq<Byte>, b: Byte)
    ensures EndWindow(p + [b], 1) == if IsHex(b) then multiset{DigitValue(b)} else multiset{}
  {
    EndOne(p + [b]);
  }

  lemma EndTwoSnoc(p: seq<Byte>, b: Byte)
    requires p != []
    ensures EndWindow(p + [b], 2) ==
      if IsHex(p[|p| - 1]) && IsHex(b) then multiset{Pair(p[|p| - 1], b)}
      else multiset{}
  {
    var s := p + [b];
    EndTwo(s);
    assert s[|s| - 1] == b && s[|s| - 2] == p[|p| - 1];
  }

  /** Reading one more byte b after p, whose last byte is prev, adds the
      windows of width 1 and 2 that end at b. */
  lemma Step(p: seq<Byte>, prev: Byte, b: Byte, one: multiset<nat>, two: multiset<nat>)
    requires p != [] && p[|p| - 1] == prev && Windows(p, 1) == one && Windows(p, 2) == two
    ensures Windows(p + [b], 1) == one + if IsHex(b) then multiset{DigitValue(b)} else multiset{}
    ensures Windows(p + [b], 2) == two +
      if IsHex(prev) && IsHex(b) then multiset{Pair(prev, b)} else multiset{}
  {
    WindowsSnoc(p, b, 1);
    WindowsSnoc(p, b, 2);
    EndOneSnoc(p, b);
    EndTwoSnoc(p, b);
  }

  /** A run of one hex digit. */
  lemma RunOf1(a: Byte)
    requires IsHex(a)
    ensures Windows([a], 1) == multiset{DigitValue(a)}
    ensures Windows([a], 2) == multiset{}
  {
    EndOne([a]);
    assert [a][..0] == [];
  }

  /** A run of two hex digits. */
  lemma RunOf2(a: Byte, b: Byte)
    requires IsHex(a) && IsHex(b)
    ensures Windows([a] + [b], 1) == multiset{DigitValue(a)} + multiset{DigitValue(b)}
    ensures Windows([a] + [b], 2) == multiset{} + multiset{Pair(a, b)}
  {
    RunOf1(a);
    Step([a], a, b, Windows([a], 1), Windows([a], 2));
  }

  /** A run of three hex digits. */
  lemma RunOf3(a: Byte, b: Byte, c: Byte)
    requires IsHex(a) && IsHex(b) && IsHex(c)
    ensures Windows([a] + [b] + [c], 1) == multiset{DigitValue(a)} + multiset{DigitValue(b)} + multiset{DigitValue(c)}
    ensures Windows([a] + [b] + [c], 2)
         == multiset{} + multiset{Pair(a, b)} + multiset{Pair(b, c)}
  {
    RunOf2(a, b);
    Step([a] + [b], b, c, Windows([a] + [b], 1), Windows([a] + [b], 2));
  }

  /** A run of four hex digits. */
  lemma RunOf4(a: Byte, b: Byte, c: Byte, d: Byte)
    requires IsHex(a) && IsHex(b) && IsHex(c) && IsHex(d)
    ensures Windows([a] + [b] + [c] + [d], 1)
         == multiset{DigitValue(a)} + multiset{DigitValue(b)} + multiset{DigitValue(c)} + multiset{DigitValue(d)}
    ensures Windows([a] + [b] + [c] + [d], 2)
         == multiset{} + multiset{Pair(a, b)} + multiset{Pair(b, c)}
            + multiset{Pair(c, d)}
  {
    RunOf3(a, b, c);
    Step([a] + [b] + [c], c, d, Windows([a] + [b] + [c], 1), Windows([a] + [b] + [c], 2));
  }

  /** Four runs, each after a separator, count as the four runs apart. */
  lemma FourRuns(u: Byte, r1: seq<Byte>, r2: seq<Byte>, r3: seq<Byte>, r4: seq<Byte>, w: nat)
    requires !IsHex(u) && w >= 1
    ensures Windows([] + [u] + r1 + [u] + r2 + [u] + r3 + [u] + r4, w)
         == Windows(r1, w) + Windows(r2, w) + Windows(r3, w) + Windows(r4, w)
  {
    var a1 := [] + [u] + r1;
    var a2 := a1 + [u] + r2;
    var a3 := a2 + [u] + r3;
    NoLeakage([], u, r1, w);
    NoLeakage(a1, u, r2, w);
    NoLeakage(a2, u, r3, w);
    NoLeakage(a3, u, r4, w);
  }

  /** Four runs of four, four, two and one hex digits, each after a byte u
      that is not one: every digit is a width-1 window and every adjacent
      pair inside a run a width-2 window. */
  lemma ShapedWindows(u: Byte, a1: Byte, a2: Byte, a3: Byte, a4: Byte, b1: Byte, b2: Byte, b3: Byte, b4: Byte,
                      c1: Byte, c2: Byte, d1: Byte)
    requires !IsHex(u)
    requires IsHex(a1) && IsHex(a2) && IsHex(a3) && IsHex(a4) && IsHex(b1) && IsHex(b2) && IsHex(b3) && IsHex(b4)
    requires IsHex(c1) && IsHex(c2) && IsHex(d1)
    ensures Windows([] + [u] + ([a1] + [a2] + [a3] + [a4]) + [u] + ([b1] + [b2] + [b3] + [b4]) + [u] + ([c1] + [c2]) + [u] + [d1], 1)
         == (multiset{DigitValue(a1)} + multiset{DigitValue(a2)} + multiset{DigitValue(a3)} + multiset{DigitValue(a4)}) + (multiset{DigitValue(b1)} + multiset{DigitValue(b2)} + multiset{DigitValue(b3)} + multiset{DigitValue(b4)}) + (multiset{DigitValue(c1)} + multiset{DigitValue(c2)}) + (multiset{DigitValue(d1)})
    ensures Windows([] + [u] + ([a1] + [a2] + [a3] + [a4]) + [u] + ([b1] + [b2] + [b3] + [b4]) + [u] + ([c1] + [c2]) + [u] + [d1], 2)
         == (multiset{} + multiset{Pair(a1, a2)} + multiset{Pair(a2, a3)} + multiset{Pair(a3, a4)}) + (multiset{} + multiset{Pair(b1, b2)} + multiset{Pair(b2, b3)} + multiset{Pair(b3, b4)}) + (multiset{} + multiset{Pair(c1, c2)}) + multiset{}
  {
    FourRuns(u, [a1] + [a2] + [a3] + [a4], [b1] + [b2] + [b3] + [b4], [c1] + [c2], [d1], 1);
    FourRuns(u, [a1] + [a2] + [a3] + [a4], [b1] + [b2] + [b3] + [b4], [c1] + [c2], [d1], 2);
    RunOf4(a1, a2, a3, a4);
    RunOf4(b1, b2, b3, b4);
    RunOf2(c1, c2);
    RunOf1(d1);
  }

  /** A 15-byte input as its runs, each after the separator s[0]. */
  lemma SampleSplit(s: seq<Byte>)
    requires |s| == 15 && s[5] == s[0] && s[10] == s[0] && s[13] == s[0]
    ensures s == [] + [s[0]] + ([s[1]] + [s[2]] + [s[3]] + [s[4]]) + [s[0]] + ([s[6]] + [s[7]] + [s[8]] + [s[9]])
                 + [s[0]] + ([s[11]] + [s[12]]) + [s[0]] + [s[14]]
  {
  }

  /** Bytes that read as the sample. */
  predicate IsSample(s: seq<Byte>)
  {
    |s| == 15 && forall i :: 0 <= i < 15 ==> s[i] == SAMPLE[i]
  }

  /** The windows of the sample: 7 twice at width 1 and every other digit
      once; at width 2 the seven pairs inside the runs. */
  lemma SampleWindowsOf(s: seq<Byte>)
    requires IsSample(s)
    ensures Windows(s, 1) == multiset{1, 2, 3, 4, 5, 6, 7, 8, 9, 0, 7}
    ensures Windows(s, 2) == multiset{0x12, 0x23, 0x34, 0x56, 0x67, 0x78, 0x90}
  {
    SampleBytes(s);
    ShapedInput(s);
    SampleValues(s);
  }

  /** Bytes shaped like the sample: a separator that is not a hex digit,
      then runs of four, four, two and one hex digits, each after it. */
  predicate SampleShaped(s: seq<Byte>)
  {
    |s| == 15 && s[5] == s[0] && s[10] == s[0] && s[13] == s[0] && !IsHex(s[0])
    && IsHex(s[1]) && IsHex(s[2]) && IsHex(s[3]) && IsHex(s[4])
    && IsHex(s[6]) && IsHex(s[7]) && IsHex(s[8]) && IsHex(s[9])
    && IsHex(s[11]) && IsHex(s[12]) && IsHex(s[14])
  }

  /** The windows of a sample-shaped input, digit by digit. */
  lemma ShapedInput(s: seq<Byte>)
    requires SampleShaped(s)
    ensures Windows(s, 1) == (multiset{DigitValue(s[1])} + multiset{DigitValue(s[2])} + multiset{DigitValue(s[3])} + multiset{DigitValue(s[4])}) + (multiset{DigitValue(s[6])} + multiset{DigitValue(s[7])} + multiset{DigitValue(s[8])} + multiset{DigitValue(s[9])}) + (multiset{DigitValue(s[11])} + multiset{DigitValue(s[12])}) + (multiset{DigitValue(s[14])})
    ensures Windows(s, 2) == (multiset{} + multiset{Pair(s[1], s[2])} + multiset{Pair(s[2], s[3])} + multiset{Pair(s[3], s[4])}) + (multiset{} + multiset{Pair(s[6], s[7])} + multiset{Pair(s[7], s[8])} + multiset{Pair(s[8], s[9])}) + (multiset{} + multiset{Pair(s[11], s[12])}) + multiset{}
  {
    var t := [] + [s[0]] + ([s[1]] + [s[2]] + [s[3]] + [s[4]]) + [s[0]] + ([s[6]] + [s[7]] + [s[8]] + [s[9]])
             + [s[0]] + ([s[11]] + [s[12]]) + [s[0]] + [s[14]];
    assert Windows(s, 1) == Windows(t, 1) && Windows(s, 2) == Windows(t, 2) by {
      SampleSplit(s);
    }
    ShapedWindows(s[0], s[1], s[2], s[3], s[4], s[6], s[7], s[8], s[9], s[11], s[12], s[14]);
  }

  /** The separator and the digits of the sample. */
  lemma SampleBytes(s: seq<Byte>)
    requires IsSample(s)
    ensures SampleShaped(s)
  {
    assert s[0] == s[5] == s[10] == s[13] == 95;
    assert s[1] == 49 && s[2] == 50 && s[3] == 51 && s[4] == 52;
    assert s[6] == 53 && s[7] == 54 && s[8] == 55 && s[9] == 56;
    assert s[11] == 57 && s[12] == 48 && s[14] == 55;
  }

  /** The digit values of the sample, one digit at a time. */
  lemma SampleValues(s: seq<Byte>)
    requires IsSample(s)
    ensures (multiset{DigitValue(s[1])} + multiset{DigitValue(s[2])} + multiset{DigitValue(s[3])} + multiset{DigitValue(s[4])}) + (multiset{DigitValue(s[6])} + multiset{DigitValue(s[7])} + multiset{DigitValue(s[8])} + multiset{DigitValue(s[9])}) + (multiset{DigitValue(s[11])} + multiset{DigitValue(s[12])}) + (multiset{DigitValue(s[14])}) == multiset{1, 2, 3, 4, 5, 6, 7, 8, 9, 0, 7}
    ensures (multiset{} + multiset{Pair(s[1], s[2])} + multiset{Pair(s[2], s[3])} + multiset{Pair(s[3], s[4])}) + (multiset{} + multiset{Pair(s[6], s[7])} + multiset{Pair(s[7], s[8])} + multiset{Pair(s[8], s[9])}) + (multiset{} + multiset{Pair(s[11], s[12])}) + multiset{} == multiset{0x12, 0x23, 0x34, 0x56, 0x67, 0x78, 0x90}
  {
    SampleSingles(s);
    SamplePairs(s);
  }

  lemma SampleSingles(s: seq<Byte>)
    requires IsSample(s)
    ensures (multiset{DigitValue(s[1])} + multiset{DigitValue(s[2])} + multiset{DigitValue(s[3])} + multiset{DigitValue(s[4])}) + (multiset{DigitValue(s[6])} + multiset{DigitValue(s[7])} + multiset{DigitValue(s[8])} + multiset{DigitValue(s[9])}) + (multiset{DigitValue(s[11])} + multiset{DigitValue(s[12])}) + (multiset{DigitValue(s[14])}) == multiset{1, 2, 3, 4, 5, 6, 7, 8, 9, 0, 7}
  {
    SingleValues(s);
  }

  lemma SamplePairs(s: seq<Byte>)
    requires IsSample(s)
    ensures (multiset{} + multiset{Pair(s[1], s[2])} + multiset{Pair(s[2], s[3])} + multiset{Pair(s[3], s[4])}) + (multiset{} + multiset{Pair(s[6], s[7])} + multiset{Pair(s[7], s[8])} + multiset{Pair(s[8], s[9])}) + (multiset{} + multiset{Pair(s[11], s[12])}) + multiset{} == multiset{0x12, 0x23, 0x34, 0x56, 0x67, 0x78, 0x90}
  {
    PairValues(s);
  }

  lemma SingleValues(s: seq<Byte>)
    requires IsSample(s)
    ensures DigitValue(s[1]) == 1 && DigitValue(s[2]) == 2 && DigitValue(s[3]) == 3 && DigitValue(s[4]) == 4
    ensures DigitValue(s[6]) == 5 && DigitValue(s[7]) == 6 && DigitValue(s[8]) == 7 && DigitValue(s[9]) == 8
    ensures DigitValue(s[11]) == 9 && DigitValue(s[12]) == 0 && DigitValue(s[14]) == 7
  {
    assert s[1] == 49 && s[2] == 50 && s[3] == 51 && s[4] == 52;
    assert s[6] == 53 && s[7] == 54 && s[8] == 55 && s[9] == 56;
    assert s[11] == 57 && s[12] == 48 && s[14] == 55;
  }

  lemma PairValues(s: seq<Byte>)
    requires IsSample(s)
    ensures Pair(s[1], s[2]) == 0x12 && Pair(s[2], s[3]) == 0x23 && Pair(s[3], s[4]) == 0x34
    ensures Pair(s[6], s[7]) == 0x56 && Pair(s[7], s[8]) == 0x67 && Pair(s[8], s[9]) == 0x78
    ensures Pair(s[11], s[12]) == 0x90
  {
    SingleValues(s);
  }

  /** The case `_1234_5678_90_7` with two digits from the kimundi tests: at
      width 1 the digit 7 is counted twice and every other digit once; at
      width 2 exactly 12, 23, 34, 56, 67, 78 and 90 are counted, once each. */
  lemma KimundiSample()
    ensures Kimundi.Run(2, SAMPLE).Done?
    ensures Kimundi.Run(2, SAMPLE).value.ctx.tables[1] == multiset{1, 2, 3, 4, 5, 6, 7, 8, 9, 0, 7}
    ensures Kimundi.Run(2, SAMPLE).value.ctx.tables[2] == multiset{0x12, 0x23, 0x34, 0x56, 0x67, 0x78, 0x90}
  {
    Kimundi.KimundiCountsWindows(2, SAMPLE);
    SampleWindowsOf(SAMPLE);
  }

  /** The same input in the `test_main` of variant.rs, run under LateCount
      with `finalize`: `do_late_counts` restores the width-1 table to the
      same eleven digits. */
  lemma VariantSample()
    ensures Variant.Run(Variant.LateCount, 2, SAMPLE).Done?
    ensures Variant.Run(Variant.LateCount, 2, SAMPLE).value.tables[1] == multiset{1, 2, 3, 4, 5, 6, 7, 8, 9, 0, 7}
    ensures Variant.Run(Variant.LateCount, 2, SAMPLE).value.tables[2] == multiset{0x12, 0x23, 0x34, 0x56, 0x67, 0x78, 0x90}
  {
    LateCorrect.CountsWindows(Variant.LateCount, 2, SAMPLE);
    SampleWindowsOf(SAMPLE);
  }
}
