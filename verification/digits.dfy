/** The numeric value of a run of hex digits, most significant digit first:
    the quantity the register packs into its low nibbles and the key every
    count table is indexed by. */
module Digits {
  import opened Classifier
  import opened Nibbles

  /** The base-16 value of a digit string, most significant digit first. */
  function Value(s: seq<Byte>): nat
  {
    if s == [] then 0 else Value(s[..|s| - 1]) * 16 + DigitValue(s[|s| - 1])
  }

  lemma AllHexSlice(s: seq<Byte>, i: nat, j: nat)
    requires AllHex(s) && i <= j <= |s|
    ensures AllHex(s[i..j])
  {
    forall k | 0 <= k < j - i ensures IsHex(s[i..j][k]) {
      assert s[i..j][k] == s[i + k];
    }
  }

  lemma {:induction false} ValueAppend(x: seq<Byte>, y: seq<Byte>)
    ensures Value(x + y) == Value(x) * Pow16(|y|) + Value(y)
    decreases |y|
  {
    if y == [] {
      assert x + y == x;
    } else {
      var y', b := y[..|y| - 1], y[|y| - 1];
      assert x + y == (x + y') + [b];
      assert y == y' + [b];
      ValueAppend(x, y');
      ValueSnoc(x + y', b);
      ValueSnoc(y', b);
      AppendArith(Value(x), Pow16(|y'|), Value(y'), DigitValue(b), Value(x + y'), Value(x + y), Value(y), Pow16(|y|));
    }
  }

  lemma AppendArith(vx: nat, p: nat, vy: nat, d: nat, vxy: nat, vxyb: nat, vyb: nat, pp: nat)
    requires vxy == vx * p + vy && vxyb == vxy * 16 + d && vyb == vy * 16 + d && pp == 16 * p
    ensures vxyb == vx * pp + vyb
  {
    assert (vx * p + vy) * 16 == vx * (16 * p) + vy * 16;
  }

  /** A digit string of length n has a value below 16^n. */
  lemma {:induction false} ValueBound(s: seq<Byte>)
    requires AllHex(s)
    ensures Value(s) < Pow16(|s|)
  {
    if s != [] {
      var p := s[..|s| - 1];
      AllHexSlice(s, 0, |s| - 1);
      ValueBound(p);
      assert Value(p) * 16 <= (Pow16(|p|) - 1) * 16;
    }
  }

  /** Splitting a digit string at i splits its value into high and low parts. */
  lemma {:induction false} ValueSplit(s: seq<Byte>, i: nat)
    requires AllHex(s) && i <= |s|
    ensures Value(s) == Value(s[..i]) * Pow16(|s| - i) + Value(s[i..])
    ensures Value(s[i..]) < Pow16(|s| - i)
  {
    assert s == s[..i] + s[i..];
    ValueAppend(s[..i], s[i..]);
    AllHexSlice(s, i, |s|);
    ValueBound(s[i..]);
  }

  /** The low k nibbles of a string's value are the value of its last k digits. */
  lemma {:induction false} ValueSuffix(s: seq<Byte>, k: nat)
    requires AllHex(s) && k <= |s|
    ensures Mask(Value(s), k) == Value(s[|s| - k..])
  {
    var i := |s| - k;
    ValueSplit(s, i);
    LowPart(Value(s), Value(s[..i]), Value(s[i..]), k);
  }

  lemma LowPart(vs: nat, va: nat, vb: nat, k: nat)
    requires vs == va * Pow16(k) + vb && vb < Pow16(k)
    ensures Mask(vs, k) == vb
  {
    DivModUnique(vs, va, vb, Pow16(k));
  }

  /** Dropping the low |s| - k nibbles leaves the value of the first k digits. */
  lemma {:induction false} ValuePrefix(s: seq<Byte>, k: nat)
    requires AllHex(s) && k <= |s|
    ensures Value(s) / Pow16(|s| - k) == Value(s[..k])
  {
    ValueSplit(s, k);
    var vs, va, vb, p := Value(s), Value(s[..k]), Value(s[k..]), Pow16(|s| - k);
    DivModUnique(vs, va, vb, p);
  }

  /** One digit more at the end: the value is shifted by one nibble. */
  lemma ValueSnoc(s: seq<Byte>, b: Byte)
    ensures Value(s + [b]) == Value(s) * 16 + DigitValue(b)
  {
    assert (s + [b])[..|s|] == s;
  }

  /** Dropping the first digit: the remaining value is the low |s| - 1 nibbles. */
  lemma ValueDropFirst(s: seq<Byte>)
    requires AllHex(s) && |s| >= 1
    ensures Mask(Value(s), |s| - 1) == Value(s[1..])
  {
    ValueSuffix(s, |s| - 1);
  }
}
