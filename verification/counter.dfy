/** The per-width count tables of the hash-map counter.

    A `FastHashMap<u64, u64>` whose counters only ever grow from zero is a
    multiset of naturals: key v is present with multiplicity `count(v)`.
    `HashMapCounter` keeps one such table per width 0..=digits. */
module Counter {
  import opened Nibbles

  /** One width's table: the multiplicity of v is the counter stored under v. */
  type Table = multiset<nat>

  datatype Option<T> = None | Some(value: T)

  /** A call that either returns or panics with the given message. */
  datatype Outcome<T> = Done(value: T) | Panic(message: string)

  /** n copies of key k: what `count_number(k, n)` adds to a table. */
  function Rep(k: nat, n: nat): (r: Table)
    ensures |r| == n
    ensures forall x :: r[x] == (if x == k then n else 0)
  {
    multiset{}[k := n]
  }

  /** `HashMapCounter::new`: one empty table for every width 0..=digits. */
  function NewCounter(digits: nat): (r: seq<Table>)
    ensures |r| == digits + 1
    ensures forall w :: 0 <= w < |r| ==> |r[w]| == 0
  {
    seq(digits + 1, _ => multiset{})
  }

  /** `width_and_prev_width`: the table of `width` and the table below it.
      Splitting at 0 leaves no previous table and splitting past the last
      table leaves no current one; both unwraps panic, modelled as None. */
  function WidthAndPrevWidth(tables: seq<Table>, width: nat): (r: Option<(Table, Table)>)
    ensures r.Some? <==> 1 <= width < |tables|
    ensures r.Some? ==> r.value.0 == tables[width] && r.value.1 == tables[width - 1]
  {
    if width == 0 || width >= |tables| then None
    else
      var (prev, current) := (tables[..width], tables[width..]);
      Some((current[0], prev[|prev| - 1]))
  }

  /** `HashMapCounterWidth::count_number`: `*map.entry(v).or_default() += delta`. */
  function CountInto(t: Table, v: nat, delta: nat): (r: Table)
    ensures r == t + Rep(v, delta)
  {
    t[v := t[v] + delta]
  }

  /** The multiset of the one-nibble-shorter prefixes `k >> 4` of the keys of
      m, each with the multiplicity of its key. */
  ghost function Prefixes(m: Table): Table
    decreases |m|
  {
    if m == multiset{} then multiset{}
    else
      var x :| x in m;
      Prefixes(m - multiset{x}) + multiset{x / 16}
  }

  /** The image does not depend on which element is taken out first. */
  lemma {:induction false} PrefixesRemove(m: Table, x: nat)
    requires x in m
    ensures Prefixes(m) == Prefixes(m - multiset{x}) + multiset{x / 16}
    decreases |m|
  {
    var y :| y in m && Prefixes(m) == Prefixes(m - multiset{y}) + multiset{y / 16};
    if y != x {
      var my, mx := m - multiset{y}, m - multiset{x};
      var core := my - multiset{x};
      RemoveBoth(m, x, y);
      PrefixesRemove(my, x);
      PrefixesRemove(mx, y);
      Swap(Prefixes(m), Prefixes(my), Prefixes(mx), Prefixes(core), multiset{x / 16}, multiset{y / 16});
    }
  }

  /** Taking out two distinct elements in either order. */
  lemma RemoveBoth(m: Table, x: nat, y: nat)
    requires x in m && y in m && x != y
    ensures x in m - multiset{y} && y in m - multiset{x}
    ensures m - multiset{y} - multiset{x} == m - multiset{x} - multiset{y}
  {
    var a, b := m - multiset{y} - multiset{x}, m - multiset{x} - multiset{y};
    forall z ensures a[z] == b[z] {
    }
  }

  /** Adding two elements in either order. */
  lemma Swap(a: Table, b: Table, c: Table, z: Table, xs: Table, ys: Table)
    requires a == b + ys && b == z + xs && c == z + ys
    ensures a == c + xs
  {
    forall k ensures a[k] == (c + xs)[k] {
      assert a[k] == b[k] + ys[k] && b[k] == z[k] + xs[k] && c[k] == z[k] + ys[k];
    }
  }

  /** Taking prefixes is additive. */
  lemma {:induction false} PrefixesAdd(a: Table, b: Table)
    ensures Prefixes(a + b) == Prefixes(a) + Prefixes(b)
    decreases |b|
  {
    if b == multiset{} {
      assert a + b == a;
    } else {
      var x :| x in b;
      var b' := b - multiset{x};
      assert a + b - multiset{x} == a + b';
      PrefixesRemove(a + b, x);
      PrefixesRemove(b, x);
      PrefixesAdd(a, b');
    }
  }

  lemma {:induction false} PrefixesRep(k: nat, n: nat)
    ensures Prefixes(Rep(k, n)) == Rep(k / 16, n)
  {
    if n > 0 {
      var r := Rep(k, n);
      assert r - multiset{k} == Rep(k, n - 1);
      PrefixesRemove(r, k);
      PrefixesRep(k, n - 1);
      assert Rep(k / 16, n) == Rep(k / 16, n - 1) + multiset{k / 16};
    } else {
      assert Rep(k, n) == multiset{};
    }
  }

  lemma PrefixesSingle(k: nat)
    ensures Prefixes(multiset{k}) == multiset{k / 16}
  {
    assert multiset{k} == Rep(k, 1);
    PrefixesRep(k, 1);
    assert Rep(k / 16, 1) == multiset{k / 16};
  }

  /** Counting via prefixes: the multiplicity of p among the prefixes of m is
      the sum of the counters of p's sixteen one-nibble extensions. */
  lemma {:induction false} PrefixesCount(m: Table, p: nat)
    ensures Prefixes(m)[p] == ExtensionCount(m, p, 16)
    decreases |m|
  {
    if m == multiset{} {
      ExtensionCountEmpty(p, 16);
    } else {
      var x :| x in m;
      var m' := m - multiset{x};
      PrefixesRemove(m, x);
      PrefixesCount(m', p);
      ExtensionCountRemove(m, x, p, 16);
    }
  }

  /** m[16p] + m[16p + 1] + ... + m[16p + n - 1]. */
  function ExtensionCount(m: Table, p: nat, n: nat): nat
  {
    if n == 0 then 0 else ExtensionCount(m, p, n - 1) + m[16 * p + n - 1]
  }

  lemma {:induction false} ExtensionCountEmpty(p: nat, n: nat)
    ensures ExtensionCount(multiset{}, p, n) == 0
  {
    if n > 0 {
      ExtensionCountEmpty(p, n - 1);
    }
  }

  lemma {:induction false} ExtensionCountRemove(m: Table, x: nat, p: nat, n: nat)
    requires x in m && n <= 16
    ensures ExtensionCount(m, p, n)
         == ExtensionCount(m - multiset{x}, p, n) + (if x / 16 == p && x % 16 < n then 1 else 0)
  {
    if n > 0 {
      ExtensionCountRemove(m, x, p, n - 1);
      var k := 16 * p + n - 1;
      if x == k {
        DivModUnique(x, p, n - 1, 16);
      } else if x / 16 == p && x % 16 == n - 1 {
        assert x == 16 * (x / 16) + x % 16;
      }
    }
  }

  /** `do_late_counts` for one width: `for_each` visits every key of the
      current table once, in the hash map's own order, and adds its counter
      under `key >> 4` in the previous table.  `rest` holds the entries not
      visited yet; the order is left open by choosing any remaining key. */
  ghost function DeriveInto(prev: Table, rest: Table): Table
    decreases |rest|
  {
    if rest == multiset{} then prev
    else
      var k :| k in rest;
      DeriveInto(CountInto(prev, k / 16, rest[k]), rest[k := 0])
  }

  /** Whatever order the keys are visited in, the previous table gains exactly
      the prefixes of the current one. */
  lemma {:induction false} DeriveIntoAddsPrefixes(prev: Table, rest: Table)
    ensures DeriveInto(prev, rest) == prev + Prefixes(rest)
    decreases |rest|
  {
    if rest == multiset{} {
      assert Prefixes(rest) == multiset{};
    } else {
      var k :| k in rest && DeriveInto(prev, rest)
        == DeriveInto(CountInto(prev, k / 16, rest[k]), rest[k := 0]);
      var n := rest[k];
      var rest' := rest[k := 0];
      assert rest == rest' + Rep(k, n);
      DeriveIntoAddsPrefixes(CountInto(prev, k / 16, n), rest');
      PrefixesAdd(rest', Rep(k, n));
      PrefixesRep(k, n);
    }
  }
}
