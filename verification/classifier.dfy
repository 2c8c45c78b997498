/** The byte classifier: `DIGIT_MAP` sends each of the 256 byte values to
    its hex-digit value 0..15, or to the sentinel 255 when the byte is not a
    hex digit.  The same table appears in variant.rs, kimundi.rs and
    single_file.rs. */
module Classifier {

  type Byte = b: int | 0 <= b < 256

  /** The sentinel the classifier returns for a byte that is not a hex digit. */
  const NOT_A_DIGIT: nat := 255

  /** n copies of the sentinel. */
  function Sentinels(n: nat): (r: seq<nat>)
  {
    seq(n, _ => NOT_A_DIGIT)
  }

  /** The 256-entry lookup table, written as its seven constant stretches and
      split after 'F' (70): '0'..'9' (48..57) hold 0..9, 'A'..'F' (65..70) and
      'a'..'f' (97..102) hold 10..15, every other entry is the sentinel. */
  const DIGIT_MAP_LOW: seq<nat> :=
    Sentinels(48) + [0, 1, 2, 3, 4, 5, 6, 7, 8, 9] + Sentinels(7) + [10, 11, 12, 13, 14, 15]
  const DIGIT_MAP_HIGH: seq<nat> :=
    Sentinels(26) + [10, 11, 12, 13, 14, 15] + Sentinels(153)
  const DIGIT_MAP: seq<nat> := DIGIT_MAP_LOW + DIGIT_MAP_HIGH

  /** The hex-digit value of a byte, described by character ranges:
      '0'..'9' (48..57) are 0..9, 'A'..'F' (65..70) and 'a'..'f' (97..102)
      are 10..15, and every other byte is the sentinel. */
  function DigitValue(b: Byte): (r: nat)
    ensures r != NOT_A_DIGIT ==> r < 16
  {
    if 48 <= b <= 57 then b - 48            // '0'..'9'
    else if 65 <= b <= 70 then b - 55       // 'A'..'F'
    else if 97 <= b <= 102 then b - 87      // 'a'..'f'
    else NOT_A_DIGIT
  }

  predicate IsHex(b: Byte)
  {
    DigitValue(b) != NOT_A_DIGIT
  }

  predicate AllHex(s: seq<Byte>)
  {
    forall i :: 0 <= i < |s| ==> IsHex(s[i])
  }

  /** The table agrees with the range description at every one of the 256
      bytes: decimal digits to 0..9, both cases of a..f to 10..15, every other
      byte to the sentinel. */
  lemma ClassifierTable(b: Byte)
    ensures |DIGIT_MAP| == 256
    ensures DIGIT_MAP[b] == DigitValue(b)
  {
    assert |DIGIT_MAP_LOW| == 71;
    if b < 71 {
      ClassifierLow(b);
    } else {
      ClassifierHigh(b);
    }
  }

  lemma ClassifierLow(b: nat)
    requires b < 71
    ensures |DIGIT_MAP_LOW| == 71
    ensures DIGIT_MAP_LOW[b] == DigitValue(b)
  {
    var p0, p1, p2, p3 := Sentinels(48), [0, 1, 2, 3, 4, 5, 6, 7, 8, 9], Sentinels(7), [10, 11, 12, 13, 14, 15];
    assert DIGIT_MAP_LOW == (p0 + p1) + (p2 + p3);
    if b < 58 {
      assert DIGIT_MAP_LOW[b] == (p0 + p1)[b];
    } else {
      assert DIGIT_MAP_LOW[b] == (p2 + p3)[b - 58];
    }
  }

  lemma ClassifierHigh(b: nat)
    requires 71 <= b < 256
    ensures |DIGIT_MAP_HIGH| == 185
    ensures DIGIT_MAP_HIGH[b - 71] == DigitValue(b)
  {
    var p4, p5, p6 := Sentinels(26), [10, 11, 12, 13, 14, 15], Sentinels(153);
    assert DIGIT_MAP_HIGH == p4 + (p5 + p6);
    if b < 97 {
      assert DIGIT_MAP_HIGH[b - 71] == p4[b - 71];
    } else {
      assert DIGIT_MAP_HIGH[b - 71] == (p5 + p6)[b - 97];
    }
  }

  /** The entries the unit tests of variant.rs and kimundi.rs check. */
  lemma ClassifierSamples()
    ensures DIGIT_MAP[97] == 10 && DIGIT_MAP[102] == 15     // 'a', 'f'
    ensures DIGIT_MAP[65] == 10 && DIGIT_MAP[70] == 15      // 'A', 'F'
    ensures DIGIT_MAP[48] == 0 && DIGIT_MAP[57] == 9        // '0', '9'
    ensures DIGIT_MAP[95] == NOT_A_DIGIT                    // '_'
  {
    ClassifierTable(97); ClassifierTable(102);
    ClassifierTable(65); ClassifierTable(70);
    ClassifierTable(48); ClassifierTable(57);
    ClassifierTable(95);
  }
}
