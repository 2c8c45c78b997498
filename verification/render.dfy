/** Rendering a counted key back to text, as `into_count` does: the low w
    nibbles of the key, most significant first, as lowercase hex digits. */
module Rendering {
  import opened Classifier
  import opened Nibbles
  import opened Digits

  /** The digits `into_count` writes: '0'..'9' and 'a'..'f'. */
  predicate IsLowerHex(b: Byte)
  {
    48 <= b <= 57 || 97 <= b <= 102
  }

  predicate AllLowerHex(s: seq<Byte>)
  {
    forall i :: 0 <= i < |s| ==> IsLowerHex(s[i])
  }

  /** `if c < 10 { b'0' + c } else { b'a' + (c - 10) }` for a nibble c. */
  function HexChar(c: nat): (r: Byte)
    requires c < 16
    ensures IsLowerHex(r) && DigitValue(r) == c
  {
    if c < 10 then 48 + c else 97 + (c - 10)
  }

  /** The inner loop of `into_count` before `vec.reverse()`: w rounds of
      `push(hex(number & 0xf)); number >>= 4`, least significant first. */
  function LsbFirst(v: nat, w: nat): (r: seq<Byte>)
    ensures |r| == w
  {
    if w == 0 then [] else [HexChar(v % 16)] + LsbFirst(v / 16, w - 1)
  }

  function Reverse(s: seq<Byte>): (r: seq<Byte>)
    ensures |r| == |s|
    ensures forall i :: 0 <= i < |s| ==> r[i] == s[|s| - 1 - i]
  {
    if s == [] then [] else Reverse(s[1..]) + [s[0]]
  }

  /** The key text for value v at width w. */
  function Render(v: nat, w: nat): (r: seq<Byte>)
    ensures |r| == w
  {
    Reverse(LsbFirst(v, w))
  }

  /** One round of the loop: the last character is the lowest nibble and the
      rest is the rendering of the remaining nibbles. */
  lemma RenderStep(v: nat, w: nat)
    requires w >= 1
    ensures Render(v, w) == Render(v / 16, w - 1) + [HexChar(v % 16)]
  {
    var s := LsbFirst(v, w);
    assert s[1..] == LsbFirst(v / 16, w - 1);
  }

  /** Every rendered character is a lowercase hex digit. */
  lemma {:induction false} RenderIsLowerHex(v: nat, w: nat)
    ensures AllLowerHex(Render(v, w)) && AllHex(Render(v, w))
  {
    if w > 0 {
      RenderStep(v, w);
      RenderIsLowerHex(v / 16, w - 1);
      var r := Render(v, w);
      forall i | 0 <= i < |r| ensures IsLowerHex(r[i]) && IsHex(r[i]) {
        if i < w - 1 {
          assert r[i] == Render(v / 16, w - 1)[i];
        }
      }
    }
  }

  /** Reading a rendered key back gives the low w nibbles of the value. */
  lemma {:induction false} ValueOfRender(v: nat, w: nat)
    ensures Value(Render(v, w)) == Mask(v, w)
  {
    if w > 0 {
      var a, d := v / 16, v % 16;
      RenderStep(v, w);
      ValueSnoc(Render(a, w - 1), HexChar(d));
      ValueOfRender(a, w - 1);
      assert v == a * 16 + d;
      ShiftInMask(a, d, w);
    }
  }

  /** Within one width, distinct keys render to distinct texts; keys of
      different widths render to texts of different lengths. */
  lemma RenderInjective(v1: nat, w1: nat, v2: nat, w2: nat)
    requires v1 < Pow16(w1) && v2 < Pow16(w2)
    requires Render(v1, w1) == Render(v2, w2)
    ensures w1 == w2 && v1 == v2
  {
    ValueOfRender(v1, w1);
    ValueOfRender(v2, w2);
    DivModUnique(v1, 0, v1, Pow16(w1));
    DivModUnique(v2, 0, v2, Pow16(w2));
  }

  /** Rendering the value of a lowercase hex string at its own length gives
      the string back. */
  lemma {:induction false} RenderOfValue(x: seq<Byte>)
    requires AllLowerHex(x)
    ensures Render(Value(x), |x|) == x
    decreases |x|
  {
    if x != [] {
      var n := |x|;
      var x', b := x[..n - 1], x[n - 1];
      assert x == x' + [b];
      assert AllLowerHex(x') by {
        forall i | 0 <= i < |x'| ensures IsLowerHex(x'[i]) {
          assert x'[i] == x[i];
        }
      }
      var v, d := Value(x'), DigitValue(b);
      assert d < 16;
      ValueSnoc(x', b);
      DivModUnique(Value(x), v, d, 16);
      RenderStep(Value(x), n);
      RenderOfValue(x');
      assert HexChar(d) == b;
    }
  }
}
