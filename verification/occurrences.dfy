/** What every counting engine is meant to compute, stated without any
    register: for each width w, the multiset of the values of all windows of
    w consecutive bytes of the input that consist of hex digits only. */
module Occurrences {
  import opened Classifier
  import opened Nibbles
  import opened Digits
  import opened Counter

  /** The window of width w that ends where s ends, if s has one and it is all
      hex digits. */
  function EndWindow(s: seq<Byte>, w: nat): (r: Table)
    ensures |r| <= 1
    ensures r != multiset{} <==> 1 <= w <= |s| && AllHex(s[|s| - w..])
  {
    if w == 0 || |s| < w || !AllHex(s[|s| - w..]) then multiset{}
    else multiset{Value(s[|s| - w..])}
  }

  /** The values of all all-hex width-w windows of s, one per end position. */
  function Windows(s: seq<Byte>, w: nat): Table
  {
    if s == [] then multiset{} else Windows(s[..|s| - 1], w) + EndWindow(s, w)
  }

  /** The window of width w that starts where s starts. */
  function StartWindow(s: seq<Byte>, w: nat): Table
    requires w <= |s|
  {
    if w == 0 || !AllHex(s[..w]) then multiset{} else multiset{Value(s[..w])}
  }

  lemma SnocSplit(c: seq<Byte>)
    requires c != []
    ensures c == c[..|c| - 1] + [c[|c| - 1]]
  {
  }

  lemma AppendSnoc(p: seq<Byte>, q: seq<Byte>, x: Byte)
    ensures p + (q + [x]) == (p + q) + [x]
  {
  }

  lemma WindowsSnoc(s: seq<Byte>, b: Byte, w: nat)
    ensures Windows(s + [b], w) == Windows(s, w) + EndWindow(s + [b], w)
  {
    assert (s + [b])[..|s|] == s;
  }

  lemma {:induction false} WindowsShort(s: seq<Byte>, w: nat)
    requires |s| < w || w == 0
    ensures Windows(s, w) == multiset{}
  {
    if s != [] {
      WindowsShort(s[..|s| - 1], w);
    }
  }

  /** Peeling the first window off instead of the last. */
  lemma {:induction false} WindowsFront(x: seq<Byte>, w: nat)
    requires 1 <= w <= |x|
    ensures Windows(x, w) == StartWindow(x, w) + Windows(x[1..], w)
    decreases |x|
  {
    if |x| == w {
      WindowsFrontBase(x, w);
    } else {
      WindowsFront(x[..|x| - 1], w);
      WindowsFrontStep(x, w);
    }
  }

  lemma WindowsFrontBase(x: seq<Byte>, w: nat)
    requires 1 <= w == |x|
    ensures Windows(x, w) == StartWindow(x, w) + Windows(x[1..], w)
  {
    var y, b := x[..|x| - 1], x[|x| - 1];
    assert x == y + [b];
    WindowsSnoc(y, b, w);
    WindowsShort(y, w);
    WindowsShort(x[1..], w);
    assert x[|x| - w..] == x[..w];
  }

  lemma WindowsFrontStep(x: seq<Byte>, w: nat)
    requires 1 <= w < |x|
    requires Windows(x[..|x| - 1], w)
          == StartWindow(x[..|x| - 1], w) + Windows(x[..|x| - 1][1..], w)
    ensures Windows(x, w) == StartWindow(x, w) + Windows(x[1..], w)
  {
    var y, b := x[..|x| - 1], x[|x| - 1];
    assert x == y + [b];
    WindowsSnoc(y, b, w);
    var t := y[1..];
    FrontSnoc(x, w);
    WindowsSnoc(t, b, w);
    Regroup(Windows(x, w), Windows(y, w), EndWindow(x, w), StartWindow(x, w),
            Windows(t, w), Windows(x[1..], w));
  }

  /** Dropping the first byte of a string with more than w bytes keeps its
      first width-w window's successor windows and its last window. */
  lemma FrontSnoc(x: seq<Byte>, w: nat)
    requires 1 <= w < |x|
    ensures x[1..] == x[..|x| - 1][1..] + [x[|x| - 1]]
    ensures EndWindow(x[1..], w) == EndWindow(x, w)
    ensures StartWindow(x[..|x| - 1], w) == StartWindow(x, w)
  {
    var x1 := x[1..];
    assert x1[|x1| - w..] == x[|x| - w..];
    assert x[..|x| - 1][..w] == x[..w];
  }

  /** a == b + e, b == s + c, d == c + e gives a == s + d. */
  lemma Regroup(a: Table, b: Table, e: Table, s: Table, c: Table, d: Table)
    requires a == b + e && b == s + c && d == c + e
    ensures a == s + d
  {
  }

  /** a == b + e, b == s + c, d == c + s gives a == e + d. */
  lemma Rearrange(a: Table, b: Table, e: Table, s: Table, c: Table, d: Table)
    requires a == b + e && b == s + c && d == c + s
    ensures a == e + d
  {
  }

  /** Every window value is below 16^w. */
  lemma {:induction false} WindowsBound(s: seq<Byte>, w: nat)
    ensures forall v :: v in Windows(s, w) ==> v < Pow16(w)
  {
    if s != [] {
      WindowsBound(s[..|s| - 1], w);
      if EndWindow(s, w) != multiset{} {
        ValueBound(s[|s| - w..]);
      }
    }
  }

  /** In a run of hex digits, each width-w window either ends the run or is
      the prefix of a width-(w+1) window: the windows of width w are the last
      one plus the prefixes of the windows one wider. */
  lemma {:induction false} WindowsClosure(x: seq<Byte>, w: nat)
    requires AllHex(x) && w >= 1
    ensures Windows(x, w) == EndWindow(x, w) + Prefixes(Windows(x, w + 1))
    decreases |x|
  {
    if |x| <= w {
      WindowsClosureShort(x, w);
    } else {
      AllHexSlice(x, 0, |x| - 1);
      WindowsClosure(x[..|x| - 1], w);
      SnocSplit(x);
      WindowsClosureStep(x[..|x| - 1], x[|x| - 1], w);
    }
  }

  lemma WindowsClosureShort(x: seq<Byte>, w: nat)
    requires |x| <= w && w >= 1
    ensures Windows(x, w) == EndWindow(x, w) + Prefixes(Windows(x, w + 1))
  {
    WindowsShort(x, w + 1);
    assert Prefixes(multiset{}) == multiset{};
    if x != [] {
      WindowsShort(x[..|x| - 1], w);
    }
  }

  lemma WindowsClosureStep(y: seq<Byte>, b: Byte, w: nat)
    requires AllHex(y + [b]) && 1 <= w <= |y|
    requires Windows(y, w) == EndWindow(y, w) + Prefixes(Windows(y, w + 1))
    ensures Windows(y + [b], w) == EndWindow(y + [b], w) + Prefixes(Windows(y + [b], w + 1))
  {
    var x := y + [b];
    var wy1, ex1 := Windows(y, w + 1), EndWindow(x, w + 1);
    WindowsSnoc(y, b, w + 1);
    PrefixesAdd(wy1, ex1);
    LastWindowPrefix(x, w);
    assert x[..|x| - 1] == y;
    WindowsSnoc(y, b, w);
    Rearrange(Windows(x, w), Windows(y, w), EndWindow(x, w), EndWindow(y, w),
              Prefixes(wy1), Prefixes(Windows(x, w + 1)));
  }

  /** The prefix of the last width-(w+1) window of a hex run is the last
      width-w window before the final byte. */
  lemma LastWindowPrefix(x: seq<Byte>, w: nat)
    requires AllHex(x) && 1 <= w < |x|
    ensures Prefixes(EndWindow(x, w + 1)) == EndWindow(x[..|x| - 1], w)
  {
    var y := x[..|x| - 1];
    var z := x[|x| - (w + 1)..];
    AllHexSlice(x, |x| - (w + 1), |x|);
    AllHexSlice(x, 0, |x| - 1);
    AllHexSlice(y, |y| - w, |y|);
    assert EndWindow(x, w + 1) == multiset{Value(z)};
    PrefixesSingle(Value(z));
    ValuePrefix(z, w);
    assert z[..w] == y[|y| - w..];
  }

  /** No window reaches across a byte that is not a hex digit. */
  lemma {:induction false} NoLeakage(a: seq<Byte>, b: Byte, c: seq<Byte>, w: nat)
    requires !IsHex(b) && w >= 1
    ensures Windows(a + [b] + c, w) == Windows(a, w) + Windows(c, w)
    decreases |c|
  {
    if c == [] {
      NoLeakageBase(a, b, w);
    } else {
      NoLeakage(a, b, c[..|c| - 1], w);
      NoLeakageStep(a, b, c, w);
    }
  }

  lemma NoLeakageBase(a: seq<Byte>, b: Byte, w: nat)
    requires !IsHex(b) && w >= 1
    ensures Windows(a + [b] + [], w) == Windows(a, w) + Windows([], w)
  {
    var ab := a + [b];
    assert ab + [] == ab;
    WindowsSnoc(a, b, w);
    assert EndWindow(ab, w) == multiset{} by {
      if 1 <= w <= |ab| {
        assert ab[|ab| - w..][w - 1] == b;
      }
    }
  }

  lemma NoLeakageStep(a: seq<Byte>, b: Byte, c: seq<Byte>, w: nat)
    requires !IsHex(b) && w >= 1 && c != []
    requires Windows(a + [b] + c[..|c| - 1], w) == Windows(a, w) + Windows(c[..|c| - 1], w)
    ensures Windows(a + [b] + c, w) == Windows(a, w) + Windows(c, w)
  {
    var ab := a + [b];
    var c', x := c[..|c| - 1], c[|c| - 1];
    SnocSplit(c);
    AppendSnoc(ab, c', x);
    WindowsSnoc(ab + c', x, w);
    WindowsSnoc(c', x, w);
    SameEndWindow(ab, c, w);
    Regroup(Windows(ab + c, w), Windows(ab + c', w), EndWindow(c, w), Windows(a, w),
            Windows(c', w), Windows(c, w));
  }

  /** The last window of ab + c is the last window of c, or missing on both
      sides, when ab ends in a byte that is not a hex digit. */
  lemma SameEndWindow(ab: seq<Byte>, c: seq<Byte>, w: nat)
    requires |ab| >= 1 && !IsHex(ab[|ab| - 1]) && w >= 1
    ensures EndWindow(ab + c, w) == EndWindow(c, w)
  {
    var long := ab + c;
    if w <= |c| {
      assert long[|long| - w..] == c[|c| - w..];
    } else if w <= |long| {
      assert long[|long| - w..][w - |c| - 1] == ab[|ab| - 1];
    }
  }

  /** A run of hex digits of length n has max(0, n - w + 1) windows of width w. */
  lemma {:induction false} WindowsOfRun(x: seq<Byte>, w: nat)
    requires AllHex(x) && w >= 1
    ensures |Windows(x, w)| == if |x| >= w then |x| - w + 1 else 0
    decreases |x|
  {
    if x == [] {
    } else {
      var y := x[..|x| - 1];
      AllHexSlice(x, 0, |x| - 1);
      WindowsOfRun(y, w);
      if |x| >= w {
        AllHexSlice(x, |x| - w, |x|);
      }
    }
  }

  /** The number of hex digits at the start of s. */
  function LeadingRun(s: seq<Byte>): (r: nat)
    ensures r <= |s|
    ensures AllHex(s[..r])
    ensures r < |s| ==> !IsHex(s[r])
  {
    if s == [] || !IsHex(s[0]) then 0
    else
      var n := LeadingRun(s[1..]);
      assert s[..n + 1] == [s[0]] + s[1..][..n];
      n + 1
  }

  /** The lengths of the maximal runs of hex digits of s, left to right. */
  function RunLengths(s: seq<Byte>): (r: seq<nat>)
    ensures forall i :: 0 <= i < |r| ==> r[i] >= 1
    decreases |s|
  {
    if s == [] then []
    else if !IsHex(s[0]) then RunLengths(s[1..])
    else
      var n := LeadingRun(s);
      [n] + RunLengths(s[n..])
  }

  /** Sum over runs of max(0, n - w + 1). */
  function WindowTotal(runs: seq<nat>, w: nat): nat
  {
    if runs == [] then 0
    else (if runs[0] >= w then runs[0] - w + 1 else 0) + WindowTotal(runs[1..], w)
  }

  /** Each width counts one window per start position inside each run: the
      total count of width w is the sum over runs of max(0, n - w + 1). */
  lemma {:induction false} WindowCountLaw(s: seq<Byte>, w: nat)
    requires w >= 1
    ensures |Windows(s, w)| == WindowTotal(RunLengths(s), w)
    decreases |s|
  {
    if s == [] {
    } else if !IsHex(s[0]) {
      WindowCountLaw(s[1..], w);
      CountLawSkip(s, w);
    } else if LeadingRun(s) == |s| {
      CountLawLastRun(s, w);
    } else {
      WindowCountLaw(s[LeadingRun(s) + 1..], w);
      CountLawRun(s, w);
    }
  }

  lemma CountLawSkip(s: seq<Byte>, w: nat)
    requires w >= 1 && s != [] && !IsHex(s[0])
    requires |Windows(s[1..], w)| == WindowTotal(RunLengths(s[1..]), w)
    ensures |Windows(s, w)| == WindowTotal(RunLengths(s), w)
  {
    assert s == [] + [s[0]] + s[1..];
    NoLeakage([], s[0], s[1..], w);
  }

  lemma CountLawLastRun(s: seq<Byte>, w: nat)
    requires w >= 1 && s != [] && IsHex(s[0]) && LeadingRun(s) == |s|
    ensures |Windows(s, w)| == WindowTotal(RunLengths(s), w)
  {
    assert s[..|s|] == s;
    WindowsOfRun(s, w);
    assert RunLengths(s) == [|s|] + RunLengths(s[|s|..]);
    assert RunLengths(s[|s|..]) == [];
    assert ([|s|] + [])[1..] == [];
  }

  lemma CountLawRun(s: seq<Byte>, w: nat)
    requires w >= 1 && s != [] && IsHex(s[0]) && LeadingRun(s) < |s|
    requires |Windows(s[LeadingRun(s) + 1..], w)|
          == WindowTotal(RunLengths(s[LeadingRun(s) + 1..]), w)
    ensures |Windows(s, w)| == WindowTotal(RunLengths(s), w)
  {
    var n := LeadingRun(s);
    RunWindowsSplit(s, w);
    RunLengthsSplit(s);
    WindowTotalCons(n, RunLengths(s[n + 1..]), w);
  }

  /** The windows of s are those of its leading run and those after the byte
      that ends it. */
  lemma RunWindowsSplit(s: seq<Byte>, w: nat)
    requires w >= 1 && s != [] && LeadingRun(s) < |s|
    ensures |Windows(s, w)| == (if LeadingRun(s) >= w then LeadingRun(s) - w + 1 else 0)
                              + |Windows(s[LeadingRun(s) + 1..], w)|
  {
    var n := LeadingRun(s);
    var run, rest := s[..n], s[n + 1..];
    assert s == run + [s[n]] + rest;
    NoLeakage(run, s[n], rest, w);
    WindowsOfRun(run, w);
  }

  lemma RunLengthsSplit(s: seq<Byte>)
    requires s != [] && IsHex(s[0]) && LeadingRun(s) < |s|
    ensures RunLengths(s) == [LeadingRun(s)] + RunLengths(s[LeadingRun(s) + 1..])
  {
    var n := LeadingRun(s);
    var tail := s[n..];
    assert tail[1..] == s[n + 1..];
    assert RunLengths(tail) == RunLengths(tail[1..]);
  }

  lemma WindowTotalCons(n: nat, runs: seq<nat>, w: nat)
    ensures WindowTotal([n] + runs, w) == (if n >= w then n - w + 1 else 0) + WindowTotal(runs, w)
  {
    assert ([n] + runs)[1..] == runs;
  }
}
