/** original.rs: the reference engine.  For every width 1..=digit it keeps
    the last `width` bytes seen, padded with '_' at the start, and counts
    every such buffer as a byte string; `finalize` then drops every key
    that holds a byte which is not numeric as a Latin-1 `char`. */
module Original {
  import opened Classifier
  import opened Nibbles
  import opened Counter
  import opened Digits
  import opened Rendering
  import opened Occurrences
  import Variant
  import Report

  /** `b"_"`: the padding of a fresh buffer. */
  const UNDERSCORE: Byte := 95

  /** `char::from(c).is_numeric()` for a byte c read as a Latin-1 code
      point: the ASCII digits, the superscripts two, three and one, and the
      vulgar fractions one quarter, one half and three quarters. */
  predicate IsNumeric(c: Byte)
  {
    48 <= c <= 57 || c == 0xB2 || c == 0xB3 || c == 0xB9 || c == 0xBC || c == 0xBD || c == 0xBE
  }

  predicate IsDecimal(c: Byte)
  {
    48 <= c <= 57
  }

  /** `is_not_numeric`: scan the key and stop at the first byte that is not
      numeric. */
  function IsNotNumeric(key: seq<Byte>): (r: bool)
    ensures r <==> exists i :: 0 <= i < |key| && !IsNumeric(key[i])
    decreases |key|
  {
    if key == [] then false
    else if !IsNumeric(key[0]) then true
    else
      var r := IsNotNumeric(key[1..]);
      assert forall i :: 1 <= i < |key| ==> key[i] == key[1..][i - 1];
      r
  }

  /** `Original`: the key counters and one buffer per width. */
  datatype OriginalState = OriginalState(count: map<seq<Byte>, nat>, buffer: seq<seq<Byte>>)

  function Underscores(n: nat): (r: seq<Byte>)
    ensures |r| == n && forall i :: 0 <= i < n ==> r[i] == UNDERSCORE
  {
    seq(n, _ => UNDERSCORE)
  }

  /** The buffer of width w after the bytes s: the last w bytes of s after
      w bytes of padding. */
  function Last(w: nat, s: seq<Byte>): (r: seq<Byte>)
    ensures |r| == w
  {
    (Underscores(w) + s)[|s|..]
  }

  /** Every buffer has its width, and every counter came from at least one
      increment. */
  predicate Valid(o: OriginalState)
  {
    (forall i :: 0 <= i < |o.buffer| ==> |o.buffer[i]| == i + 1)
    && forall k :: k in o.count ==> o.count[k] >= 1
  }

  /** The counter of a key, 0 when the map has no entry. */
  function Get(count: map<seq<Byte>, nat>, k: seq<Byte>): nat
  {
    if k in count then count[k] else 0
  }

  /** `new(digit)`: no counters, buffer i holds i + 1 underscores. */
  function New(digit: nat): (r: OriginalState)
    ensures Valid(r) && |r.buffer| == digit && r.count == map[]
    ensures forall i :: 0 <= i < digit ==> r.buffer[i] == Last(i + 1, [])
  {
    OriginalState(map[], seq(digit, i requires 0 <= i => Underscores(i + 1)))
  }

  /** `*self.count.entry(key).or_insert(0) += 1`. */
  function Bump(count: map<seq<Byte>, nat>, key: seq<Byte>): (r: map<seq<Byte>, nat>)
    ensures forall k :: Get(r, k) == Get(count, k) + (if k == key then 1 else 0)
    ensures key in r && forall k :: k in r ==> k in count || k == key
  {
    count[key := Get(count, key) + 1]
  }

  /** The multiset of the shifted buffers i.. that `on_byte(b)` counts. */
  ghost function Shifted(buffer: seq<seq<Byte>>, b: Byte, i: nat): multiset<seq<Byte>>
    requires i <= |buffer| && forall j :: i <= j < |buffer| ==> |buffer[j]| >= 1
    decreases |buffer| - i
  {
    if i == |buffer| then multiset{} else multiset{buffer[i][1..] + [b]} + Shifted(buffer, b, i + 1)
  }

  /** One turn of the `on_byte` loop, at buffer i. */
  function ShiftAt(o: OriginalState, b: Byte, i: nat): (r: OriginalState)
    requires Valid(o) && i < |o.buffer|
    ensures Valid(r) && |r.buffer| == |o.buffer|
    ensures forall j :: 0 <= j < |o.buffer| ==>
      r.buffer[j] == if j == i then o.buffer[j][1..] + [b] else o.buffer[j]
    ensures forall k :: Get(r.count, k) == Get(o.count, k) + (if k == o.buffer[i][1..] + [b] then 1 else 0)
  {
    var shifted := o.buffer[i][1..] + [b];
    OriginalState(Bump(o.count, shifted), o.buffer[i := shifted])
  }

  /** The loop of `on_byte` from buffer i on: drop the oldest byte, append
      the new one, count the buffer.  What it does to the buffers and to the
      counters is stated by OnByteFromBuffers and OnByteFromCounts. */
  function OnByteFrom(o: OriginalState, b: Byte, i: nat): (r: OriginalState)
    requires Valid(o) && i <= |o.buffer|
    ensures Valid(r) && |r.buffer| == |o.buffer|
    decreases |o.buffer| - i
  {
    if i == |o.buffer| then o else OnByteFrom(ShiftAt(o, b, i), b, i + 1)
  }

  /** Buffers before i are left alone; every later one is shifted by b. */
  lemma {:induction false} OnByteFromBuffers(o: OriginalState, b: Byte, i: nat)
    requires Valid(o) && i <= |o.buffer|
    ensures forall j :: 0 <= j < |o.buffer| ==>
      OnByteFrom(o, b, i).buffer[j] == if j < i then o.buffer[j] else o.buffer[j][1..] + [b]
    decreases |o.buffer| - i
  {
    if i < |o.buffer| {
      OnByteFromBuffers(ShiftAt(o, b, i), b, i + 1);
    }
  }

  /** Every counter grows by the number of shifted buffers equal to its key. */
  lemma {:induction false} OnByteFromCounts(o: OriginalState, b: Byte, i: nat)
    requires Valid(o) && i <= |o.buffer|
    ensures forall k :: Get(OnByteFrom(o, b, i).count, k) == Get(o.count, k) + Shifted(o.buffer, b, i)[k]
    decreases |o.buffer| - i
  {
    if i < |o.buffer| {
      var next := ShiftAt(o, b, i);
      OnByteFromCounts(next, b, i + 1);
      ShiftedSame(next.buffer, o.buffer, b, i + 1);
      CountsStep(o.count, next.count, OnByteFrom(o, b, i).count, o.buffer[i][1..] + [b],
                 Shifted(o.buffer, b, i + 1));
    }
  }

  /** Counting one key and then a multiset of keys counts both. */
  lemma CountsStep(oc: map<seq<Byte>, nat>, nc: map<seq<Byte>, nat>, rc: map<seq<Byte>, nat>,
                   key: seq<Byte>, rest: multiset<seq<Byte>>)
    requires forall k :: Get(nc, k) == Get(oc, k) + (if k == key then 1 else 0)
    requires forall k :: Get(rc, k) == Get(nc, k) + rest[k]
    ensures forall k :: Get(rc, k) == Get(oc, k) + (multiset{key} + rest)[k]
  {
  }

  /** The shifted buffers from i on do not depend on the buffers before i. */
  lemma {:induction false} ShiftedSame(a: seq<seq<Byte>>, c: seq<seq<Byte>>, b: Byte, i: nat)
    requires i <= |a| == |c| && forall j :: i <= j < |a| ==> a[j] == c[j] && |a[j]| >= 1
    ensures Shifted(a, b, i) == Shifted(c, b, i)
    decreases |a| - i
  {
    if i < |a| {
      ShiftedSame(a, c, b, i + 1);
    }
  }

  /** `on_byte(byte)`. */
  function OnByte(o: OriginalState, b: Byte): (r: OriginalState)
    requires Valid(o)
    ensures Valid(r) && |r.buffer| == |o.buffer|
    ensures forall j :: 0 <= j < |o.buffer| ==> r.buffer[j] == o.buffer[j][1..] + [b]
    ensures forall k :: Get(r.count, k) == Get(o.count, k) + Shifted(o.buffer, b, 0)[k]
  {
    OnByteFromBuffers(o, b, 0);
    OnByteFromCounts(o, b, 0);
    OnByteFrom(o, b, 0)
  }

  /** `on_byte` over a whole input. */
  function Feed(o: OriginalState, input: seq<Byte>): (r: OriginalState)
    requires Valid(o)
    ensures Valid(r) && |r.buffer| == |o.buffer|
    decreases |input|
  {
    if input == [] then o else OnByte(Feed(o, input[..|input| - 1]), input[|input| - 1])
  }

  /** `finalize`: remove every key `is_not_numeric` flags.  Each key is
      judged on its own, so the order the keys are visited in is
      irrelevant. */
  function Finalize(o: OriginalState): (r: OriginalState)
    ensures r.buffer == o.buffer
    ensures forall k :: k in r.count <==> k in o.count && !IsNotNumeric(k)
    ensures forall k :: k in r.count ==> r.count[k] == o.count[k]
  {
    o.(count := map k | k in o.count && !IsNotNumeric(k) :: o.count[k])
  }

  /** `into_count`: the counters as they are. */
  function IntoCount(o: OriginalState): map<seq<Byte>, nat>
  {
    o.count
  }

  /** `new`, `on_byte` for every byte, `finalize`. */
  function Run(digit: nat, input: seq<Byte>): (r: OriginalState)
    ensures |r.buffer| == digit
  {
    Finalize(Feed(New(digit), input))
  }

  // ---- what the buffers and counters hold ----

  /** The buffers counted while reading the last byte of s: one per width. */
  ghost function Row(s: seq<Byte>, digit: nat): multiset<seq<Byte>>
  {
    if digit == 0 then multiset{} else Row(s, digit - 1) + multiset{Last(digit, s)}
  }

  /** Everything counted while reading s. */
  ghost function Pushed(s: seq<Byte>, digit: nat): multiset<seq<Byte>>
  {
    if s == [] then multiset{} else Pushed(s[..|s| - 1], digit) + Row(s, digit)
  }

  /** Appending a byte to a buffer after dropping its oldest byte gives
      the buffer of the longer input. */
  lemma LastSnoc(w: nat, s: seq<Byte>, b: Byte)
    requires w >= 1
    ensures Last(w, s + [b]) == Last(w, s)[1..] + [b]
  {
    assert Underscores(w) + (s + [b]) == (Underscores(w) + s) + [b];
  }

  /** LastSnoc for an input given whole. */
  lemma LastOfSnoc(w: nat, s: seq<Byte>)
    requires w >= 1 && s != []
    ensures Last(w, s) == Last(w, s[..|s| - 1])[1..] + [s[|s| - 1]]
  {
    assert s == s[..|s| - 1] + [s[|s| - 1]];
    LastSnoc(w, s[..|s| - 1], s[|s| - 1]);
  }

  lemma {:induction false} ShiftedIsRow(o: OriginalState, s: seq<Byte>, b: Byte, i: nat)
    requires Valid(o) && i <= |o.buffer|
    requires forall j :: 0 <= j < |o.buffer| ==> o.buffer[j] == Last(j + 1, s)
    ensures Shifted(o.buffer, b, i) + Row(s + [b], i) == Row(s + [b], |o.buffer|)
    decreases |o.buffer| - i
  {
    if i < |o.buffer| {
      LastSnoc(i + 1, s, b);
      ShiftedIsRow(o, s, b, i + 1);
    }
  }

  /** After reading s, buffer i holds the last i + 1 bytes of s with
      padding. */
  lemma {:induction false} FeedBuffers(digit: nat, s: seq<Byte>)
    ensures forall i :: 0 <= i < digit ==> Feed(New(digit), s).buffer[i] == Last(i + 1, s)
    decreases |s|
  {
    if s != [] {
      FeedBuffers(digit, s[..|s| - 1]);
      forall i | 0 <= i < digit ensures Feed(New(digit), s).buffer[i] == Last(i + 1, s) {
        LastOfSnoc(i + 1, s);
      }
    }
  }

  /** After reading s, the counter of key k is the number of times k was
      pushed. */
  lemma {:induction false} FeedCounts(digit: nat, s: seq<Byte>, k: seq<Byte>)
    ensures Get(Feed(New(digit), s).count, k) == Pushed(s, digit)[k]
    decreases |s|
  {
    if s != [] {
      FeedCounts(digit, s[..|s| - 1], k);
      ShiftedAfterFeed(digit, s);
    }
  }

  /** What reading the last byte of s pushes is the row of s. */
  lemma ShiftedAfterFeed(digit: nat, s: seq<Byte>)
    requires s != []
    ensures Shifted(Feed(New(digit), s[..|s| - 1]).buffer, s[|s| - 1], 0) == Row(s, digit)
  {
    var p, b := s[..|s| - 1], s[|s| - 1];
    FeedBuffers(digit, p);
    ShiftedIsRow(Feed(New(digit), p), p, b, 0);
    assert s == p + [b];
  }

  lemma {:induction false} RowSize(s: seq<Byte>, digit: nat)
    ensures |Row(s, digit)| == digit
  {
    if digit > 0 {
      RowSize(s, digit - 1);
    }
  }

  /** Before `finalize` the counters add up to digit per byte read: every
      byte pushes one buffer per width. */
  lemma {:induction false} PushedTotal(s: seq<Byte>, digit: nat)
    ensures |Pushed(s, digit)| == digit * |s|
    decreases |s|
  {
    if s != [] {
      var p := s[..|s| - 1];
      PushedTotal(p, digit);
      RowSize(s, digit);
      var n := |p|;
      assert |s| == n + 1;
      assert |Pushed(s, digit)| == digit * n + digit;
      MulSucc(digit, n);
    }
  }

  lemma MulSucc(d: nat, n: nat)
    ensures d * (n + 1) == d * n + d
  {
  }

  /** `finalize` keeps exactly the all-numeric keys with their counters,
      and a second `finalize` changes nothing. */
  lemma FinalizeIdempotent(o: OriginalState)
    ensures Finalize(Finalize(o)) == Finalize(o)
  {
    assert Finalize(Finalize(o)).count == Finalize(o).count;
  }

  /** A key that still holds padding never survives `finalize`: '_' is
      not numeric. */
  lemma FinalizeDropsPadding(o: OriginalState, k: seq<Byte>)
    requires UNDERSCORE in k
    ensures k !in Finalize(o).count
  {
    var i :| 0 <= i < |k| && k[i] == UNDERSCORE;
    assert !IsNumeric(k[i]);
  }

  // ---- agreement with the hex engines on decimal input ----

  /** Input on which being a hex digit and being numeric coincide: every
      byte that is either is an ASCII digit. */
  predicate DecimalOnly(s: seq<Byte>)
  {
    forall i :: 0 <= i < |s| ==> (IsHex(s[i]) || IsNumeric(s[i])) ==> IsDecimal(s[i])
  }

  predicate AllNumeric(k: seq<Byte>)
  {
    forall i :: 0 <= i < |k| ==> IsNumeric(k[i])
  }

  predicate AllDecimal(k: seq<Byte>)
  {
    forall i :: 0 <= i < |k| ==> IsDecimal(k[i])
  }

  /** Two lowercase hex texts of one length with one value are one text. */
  lemma SameValueSameText(x: seq<Byte>, k: seq<Byte>)
    requires AllLowerHex(x) && AllLowerHex(k) && |x| == |k| && Value(x) == Value(k)
    ensures x == k
  {
    RenderOfValue(x);
    RenderOfValue(k);
  }

  /** The width-w buffer equals key k (numeric, of width w) exactly when the
      last w bytes of s are a hex window of value Value(k) and k is decimal. */
  lemma EndMatches(s: seq<Byte>, k: seq<Byte>)
    requires DecimalOnly(s) && AllNumeric(k) && |k| >= 1
    ensures Last(|k|, s) == k <==> AllDecimal(k) && EndWindow(s, |k|) == multiset{Value(k)}
  {
    var w := |k|;
    if |s| < w {
      assert Last(w, s)[0] == UNDERSCORE && IsNumeric(k[0]);
      assert EndWindow(s, w) == multiset{};
    } else {
      EndMatchesLong(s, k);
    }
  }

  lemma EndMatchesLong(s: seq<Byte>, k: seq<Byte>)
    requires DecimalOnly(s) && AllNumeric(k) && 1 <= |k| <= |s|
    ensures Last(|k|, s) == k <==> AllDecimal(k) && EndWindow(s, |k|) == multiset{Value(k)}
  {
    var w := |k|;
    var x := s[|s| - w..];
    assert Last(w, s) == x;
    DecimalWindow(s, w);
    if x == k {
      DecimalIsLowerHex(k);
      assert EndWindow(s, w) == multiset{Value(x)};
    }
    if AllDecimal(k) && EndWindow(s, w) == multiset{Value(k)} {
      assert AllHex(x) && Value(x) == Value(k);
      DecimalIsLowerHex(k);
      SameValueSameText(x, k);
    }
  }

  lemma DecimalIsLowerHex(k: seq<Byte>)
    requires AllDecimal(k)
    ensures AllLowerHex(k) && AllHex(k)
  {
    forall i | 0 <= i < |k| ensures IsHex(k[i]) {
      assert IsDecimal(k[i]);
    }
  }

  /** A window of decimal-only input that is all numeric or all hex is all
      decimal. */
  lemma DecimalWindow(s: seq<Byte>, w: nat)
    requires DecimalOnly(s) && w <= |s|
    ensures AllNumeric(s[|s| - w..]) ==> AllDecimal(s[|s| - w..])
    ensures AllHex(s[|s| - w..]) ==> AllDecimal(s[|s| - w..]) && AllLowerHex(s[|s| - w..])
  {
    var x := s[|s| - w..];
    assert forall i :: 0 <= i < w ==> x[i] == s[|s| - w + i];
  }

  /** Per numeric key: pushes of k are the windows of value Value(k). */
  lemma {:induction false} PushedAtWindows(s: seq<Byte>, k: seq<Byte>)
    requires DecimalOnly(s) && AllNumeric(k) && |k| >= 1
    ensures PushedAt(s, |k|)[k] == if AllDecimal(k) then Windows(s, |k|)[Value(k)] else 0
    decreases |s|
  {
    if s != [] {
      var p := s[..|s| - 1];
      assert DecimalOnly(p) by {
        assert forall i :: 0 <= i < |p| ==> p[i] == s[i];
      }
      PushedAtWindows(p, k);
      EndMatches(s, k);
    }
  }

  /** The pushes of one width. */
  ghost function PushedAt(s: seq<Byte>, w: nat): multiset<seq<Byte>>
  {
    if s == [] then multiset{} else PushedAt(s[..|s| - 1], w) + multiset{Last(w, s)}
  }

  lemma {:induction false} RowCount(s: seq<Byte>, digit: nat, k: seq<Byte>)
    ensures Row(s, digit)[k] == if 1 <= |k| <= digit && Last(|k|, s) == k then 1 else 0
  {
    if digit > 0 {
      RowCount(s, digit - 1, k);
    }
  }

  lemma {:induction false} PushedSplit(s: seq<Byte>, digit: nat, k: seq<Byte>)
    ensures Pushed(s, digit)[k] == if 1 <= |k| <= digit then PushedAt(s, |k|)[k] else 0
    decreases |s|
  {
    if s != [] {
      PushedSplit(s[..|s| - 1], digit, k);
      RowCount(s, digit, k);
    }
  }

  /** A lowercase text whose value is a window value of decimal-only input
      is itself decimal. */
  lemma {:induction false} WindowTextDecimal(s: seq<Byte>, k: seq<Byte>)
    requires DecimalOnly(s) && AllLowerHex(k) && |k| >= 1 && Value(k) in Windows(s, |k|)
    ensures AllDecimal(k)
    decreases |s|
  {
    var p, w := s[..|s| - 1], |k|;
    if Value(k) in Windows(p, w) {
      assert DecimalOnly(p) by {
        assert forall i :: 0 <= i < |p| ==> p[i] == s[i];
      }
      WindowTextDecimal(p, k);
    } else {
      var x := s[|s| - w..];
      DecimalWindow(s, w);
      SameValueSameText(x, k);
    }
  }

  /** The finished map, key by key, on decimal-only input. */
  lemma KeyAgrees(digit: nat, s: seq<Byte>, k: seq<Byte>)
    requires 1 <= digit && DecimalOnly(s)
    ensures Report.KeyDescribed(IntoCount(Run(digit, s)), digit, s, k)
  {
    var o := Feed(New(digit), s);
    FeedCounts(digit, s, k);
    PushedSplit(s, digit, k);
    assert Get(o.count, k) == Pushed(s, digit)[k];
    if 1 <= |k| <= digit {
      if AllNumeric(k) {
        PushedAtWindows(s, k);
      }
      if AllLowerHex(k) && Value(k) in Windows(s, |k|) {
        WindowTextDecimal(s, k);
        PushedAtWindows(s, k);
      }
    }
  }

  /** On input whose only numeric bytes and only hex digits are the ASCII
      digits, the reference engine hands back exactly the map of the hex
      engines. */
  lemma ReferenceAgrees(strategy: Variant.Strategy, digit: nat, s: seq<Byte>)
    requires 1 <= digit <= MAX_DIGITS && DecimalOnly(s)
    ensures Variant.Run(strategy, digit, s).Done?
    ensures Variant.KeysFit(Variant.Run(strategy, digit, s).value.tables)
    ensures IntoCount(Run(digit, s)) == Variant.IntoCount(Variant.Run(strategy, digit, s).value)
  {
    Report.IntoCountMeaning(strategy, digit, s);
    forall k ensures Report.KeyDescribed(IntoCount(Run(digit, s)), digit, s, k) {
      KeyAgrees(digit, s, k);
    }
    Report.DescribesUnique(IntoCount(Run(digit, s)),
                           Variant.IntoCount(Variant.Run(strategy, digit, s).value), digit, s);
  }
}
