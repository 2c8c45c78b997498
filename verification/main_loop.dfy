/** `main_loop` (main.rs and single_file.rs alike): bytes up to and including
    the first '.' are skipped, and every byte after it is handed to the
    engine, a sparse one in main.rs and the dense one in single_file.rs.  A
    file without a '.' hands it nothing. */
module MainLoop {
  import opened Classifier
  import opened Nibbles
  import opened Counter
  import opened Digits
  import opened Rendering
  import opened Occurrences
  import Variant
  import Report
  import Dense

  const PERIOD: Byte := 46    // b'.'

  /** `for byte in &mut iter { if byte == b'.' { break; } }`, leaving the
      rest of the iterator. */
  function SkipToMarker(input: seq<Byte>): (r: seq<Byte>)
    ensures PERIOD !in input ==> r == []
    ensures PERIOD in input ==>
      |r| < |input| && r == input[|input| - |r|..]
      && input[|input| - |r| - 1] == PERIOD
      && PERIOD !in input[..|input| - |r| - 1]
    decreases |input|
  {
    if input == [] then []
    else if input[0] == PERIOD then input[1..]
    else
      var r := SkipToMarker(input[1..]);
      assert PERIOD in input ==> PERIOD in input[1..];
      assert PERIOD in input[1..] ==> input[1..][..|input| - |r| - 2] == input[1..|input| - |r| - 1];
      r
  }

  /** What the program makes of a whole file with a sparse engine: the
      engine sees only what follows the first '.'. */
  ghost function ProcessFile(strategy: Variant.Strategy, digits: nat, file: seq<Byte>): (r: Outcome<Variant.VariantState>)
    ensures r.Done? <==> 1 <= digits <= MAX_DIGITS
  {
    Variant.Run(strategy, digits, SkipToMarker(file))
  }

  /** Digits before the first '.' are never counted: the result counts the
      windows of the text after it. */
  lemma ProcessFileCounts(strategy: Variant.Strategy, digits: nat, file: seq<Byte>)
    requires 1 <= digits <= MAX_DIGITS
    ensures ProcessFile(strategy, digits, file).Done?
    ensures Variant.KeysFit(ProcessFile(strategy, digits, file).value.tables)
    ensures Report.Describes(Variant.IntoCount(ProcessFile(strategy, digits, file).value), digits,
                             SkipToMarker(file))
  {
    Report.IntoCountMeaning(strategy, digits, SkipToMarker(file));
  }

  /** What single_file.rs makes of a whole file: the dense engine sees only
      what follows the first '.'. */
  function DenseProcessFile(digits: nat, file: seq<Byte>): (r: Outcome<Dense.DenseState>)
    ensures r.Done? <==> 1 <= digits <= Dense.DENSE_MAX_DIGITS
  {
    Dense.Run(digits, SkipToMarker(file))
  }

  /** Slot v of dense table w counts the width-w windows of value v in the
      text after the first '.'; digits before it are never counted. */
  lemma DenseProcessFileCounts(digits: nat, file: seq<Byte>)
    requires 1 <= digits <= Dense.DENSE_MAX_DIGITS
    ensures DenseProcessFile(digits, file).Done?
    ensures forall w, v: nat :: 1 <= w <= digits && v < Pow16(w) ==>
      DenseProcessFile(digits, file).value.tables[w][v] == Windows(SkipToMarker(file), w)[v]
  {
    Dense.DenseCountsWindows(digits, SkipToMarker(file));
  }
}
