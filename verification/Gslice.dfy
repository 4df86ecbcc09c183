/** The index table of a generalised slice (libcxx/src/valarray.cpp): an odometer loop against
    the closed form of section 26.6.6 of ISO/IEC 14882:2011.  Sums and products are size_t
    values, so they wrap modulo the word.
  */
module Gslice {
  import opened Arithmetic

  const MODULUS: nat := 0x1_0000_0000_0000_0000

  function Wrap(x: int): nat {
    x % MODULUS
  }

  // ----- the closed form -----

  function Product(size: seq<nat>): nat {
    if size == [] then 1 else Product(size[..|size| - 1]) * size[|size| - 1]
  }

  /** How many multi-indices there are; a slice with no dimension has none. */
  function Count(size: seq<nat>): nat {
    if size == [] then 0 else Product(size)
  }

  /** The k-th multi-index, the last dimension running fastest. */
  function Digits(size: seq<nat>, k: nat): (d: seq<nat>)
    requires Product(size) > 0
    ensures |d| == |size|
  {
    if size == [] then []
    else
      var n := |size| - 1;
      LastFactors(size);
      Digits(size[..n], k / size[n]) + [k % size[n]]
  }

  function Dot(stride: seq<nat>, d: seq<nat>): nat
    requires |stride| == |d|
  {
    if d == [] then 0
    else
      var n := |d| - 1;
      Dot(stride[..n], d[..n]) + stride[n] * d[n]
  }

  /** The element that a multi-index selects. */
  function Selected(start: nat, stride: seq<nat>, d: seq<nat>): nat
    requires |d| == |stride|
  {
    Wrap(start + Dot(stride, d))
  }

  // ----- multi-indices as mixed-radix numbers -----

  predicate InRange(size: seq<nat>, d: seq<nat>) {
    |d| == |size| && forall i :: 0 <= i < |d| ==> d[i] < size[i]
  }

  function Number(size: seq<nat>, d: seq<nat>): nat
    requires |size| == |d|
  {
    if d == [] then 0
    else
      var n := |d| - 1;
      Number(size[..n], d[..n]) * size[n] + d[n]
  }

  lemma LastFactors(size: seq<nat>)
    requires size != [] && Product(size) > 0
    ensures size[|size| - 1] > 0 && Product(size[..|size| - 1]) > 0
  {
  }

  lemma {:induction false} AllPositive(size: seq<nat>)
    requires Product(size) > 0
    ensures forall i :: 0 <= i < |size| ==> size[i] > 0
  {
    if size == [] {
    } else {
      LastFactors(size);
      AllPositive(size[..|size| - 1]);
    }
  }

  lemma {:induction false} NumberBound(size: seq<nat>, d: seq<nat>)
    requires InRange(size, d)
    ensures Number(size, d) < Product(size)
  {
    if d == [] {
    } else {
      var n := |d| - 1;
      NumberBound(size[..n], d[..n]);
      var x, p, s := Number(size[..n], d[..n]), Product(size[..n]), size[n];
      ScaleMonotone(x + 1, p, s);
      assert (x + 1) * s == x * s + s;
    }
  }

  /** Multi-indices and the numbers below their count correspond one to one. */
  lemma {:induction false} DigitsOfNumber(size: seq<nat>, d: seq<nat>)
    requires InRange(size, d)
    ensures Product(size) > 0 && Digits(size, Number(size, d)) == d
  {
    NumberBound(size, d);
    if d == [] {
    } else {
      var n := |d| - 1;
      DigitsOfNumber(size[..n], d[..n]);
      DivideBack(Number(size[..n], d[..n]), size[n], d[n]);
      assert d == d[..n] + [d[n]];
    }
  }

  lemma {:induction false} NumberOfDigits(size: seq<nat>, k: nat)
    requires k < Product(size)
    ensures InRange(size, Digits(size, k)) && Number(size, Digits(size, k)) == k
  {
    if size == [] {
    } else {
      var n := |size| - 1;
      LastFactors(size);
      QuotientBelow(k, Product(size[..n]), size[n]);
      NumberOfDigits(size[..n], k / size[n]);
      var d := Digits(size, k);
      assert d[..n] == Digits(size[..n], k / size[n]);
    }
  }

  // ----- one turn of the odometer -----

  /** The multi-index after d when every digit to the right of i is at its end. */
  function Carried(d: seq<nat>, i: nat): seq<nat>
    requires i < |d|
  {
    d[..i] + [d[i] + 1] + seq(|d| - i - 1, _ => 0)
  }

  predicate AtEndAfter(size: seq<nat>, d: seq<nat>, i: int)
    requires |size| == |d|
  {
    forall j :: 0 <= j < |d| && i < j ==> d[j] + 1 == size[j]
  }

  lemma {:induction false} CarryCounts(size: seq<nat>, d: seq<nat>, i: nat)
    requires |size| == |d| && i < |d| && AtEndAfter(size, d, i)
    ensures Number(size, Carried(d, i)) == Number(size, d) + 1
  {
    var n := |d| - 1;
    var e := Carried(d, i);
    if i == n {
      assert e[..n] == d[..n];
    } else {
      assert e[..n] == Carried(d[..n], i);
      CarryCounts(size[..n], d[..n], i);
      var x, s := Number(size[..n], d[..n]), size[n];
      assert (x + 1) * s == x * s + s;
    }
  }

  /** How far the end position of dimension j lies from its start. */
  function End(stride: seq<nat>, size: seq<nat>, j: nat): int
    requires j < |stride| == |size|
  {
    var last := size[j] as int - 1;
    stride[j] * last
  }

  /** What the carry takes off: stride times the end position, summed over positions i .. j-1. */
  function Rewind(stride: seq<nat>, size: seq<nat>, i: nat, j: nat): int
    requires i <= j <= |stride| == |size|
    decreases j - i
  {
    if i == j then 0 else Rewind(stride, size, i, j - 1) + End(stride, size, j - 1)
  }

  /** How far the selection moves when the carry stops at dimension i. */
  function Move(stride: seq<nat>, size: seq<nat>, i: nat): int
    requires i < |stride| == |size|
  {
    stride[i] - Rewind(stride, size, i + 1, |size|)
  }

  lemma {:induction false} RewindPrefix(stride: seq<nat>, size: seq<nat>, i: nat, j: nat, n: nat)
    requires i <= j <= n <= |stride| == |size|
    ensures Rewind(stride[..n], size[..n], i, j) == Rewind(stride, size, i, j)
    decreases j
  {
    if i == j {
    } else {
      RewindPrefix(stride, size, i, j - 1, n);
    }
  }

  lemma {:induction false} CarryMoves(stride: seq<nat>, size: seq<nat>, d: seq<nat>, i: nat)
    requires |stride| == |size| == |d| && i < |d| && AtEndAfter(size, d, i)
    ensures Dot(stride, Carried(d, i)) == Dot(stride, d) + Move(stride, size, i)
  {
    var n := |d| - 1;
    var e := Carried(d, i);
    if i == n {
      assert e[..n] == d[..n];
      assert stride[n] * (d[n] + 1) == stride[n] * d[n] + stride[n];
    } else {
      assert e[..n] == Carried(d[..n], i);
      CarryMoves(stride[..n], size[..n], d[..n], i);
      RewindPrefix(stride, size, i + 1, n, n);
      assert e[n] == 0 && d[n] == size[n] - 1;
    }
  }

  lemma {:induction false} LastNumber(size: seq<nat>, d: seq<nat>)
    requires |size| == |d| && AtEndAfter(size, d, -1)
    ensures Number(size, d) + 1 == Product(size)
  {
    if d == [] {
    } else {
      var n := |d| - 1;
      LastNumber(size[..n], d[..n]);
      var x, s := Number(size[..n], d[..n]), size[n];
      assert (x + 1) * s == x * s + s;
    }
  }

  /** The only multi-index with the last number is the one with every digit at its end. */
  lemma OnlyLastAtEnd(size: seq<nat>, d: seq<nat>)
    requires InRange(size, d) && Number(size, d) + 1 == Product(size)
    ensures AtEndAfter(size, d, -1)
  {
    AllPositive(size);
    var last := seq(|size|, i requires 0 <= i < |size| && size[i] > 0 => size[i] - 1);
    LastNumber(size, last);
    DigitsOfNumber(size, last);
    DigitsOfNumber(size, d);
  }

  // ----- wrapping -----

  lemma WrapShift(x: int, q: int)
    ensures Wrap(x + q * MODULUS) == Wrap(x)
  {
  }

  lemma WrapSmall(x: nat)
    ensures Wrap(x) <= x
    ensures Wrap(x) == x <==> x < MODULUS
  {
  }

  /** The number of multi-indices wraps to something smaller that is not 0. */
  predicate Overruns(size: seq<nat>) {
    0 < Wrap(Count(size)) < Count(size)
  }

  /** At the multi-index of the last slot the odometer is at its end exactly when the number of
      multi-indices did not wrap; otherwise it goes on to the slot behind the table. */
  lemma LeavesTableIffOverruns(size: seq<nat>, d: seq<nat>)
    requires size != [] && InRange(size, d) && Number(size, d) + 1 == Wrap(Count(size))
    ensures !AtEndAfter(size, d, -1) <==> Overruns(size)
  {
    WrapSmall(Count(size));
    if AtEndAfter(size, d, -1) {
      LastNumber(size, d);
    } else if Number(size, d) + 1 == Product(size) {
      OnlyLastAtEnd(size, d);
    }
  }

  lemma TwoDimensions(m: nat, n: nat)
    ensures Count([m, n]) == m * n
  {
    assert [m, n][..1] == [m] && [m][..0] == [];
    assert Product([]) == 1 && Product([m]) == m;
  }

  /** 2^63 + 1 rows of two: two slots for 2^64 + 2 multi-indices, of which the third is (1, 0). */
  lemma TwoSlotTable()
    ensures var size := [0x8000_0000_0000_0001, 2];
      && Wrap(Count(size)) == 2 && Overruns(size)
      && Number(size, [0, 1]) == 1 && Number(size, Carried([0, 1], 0)) == 2
  {
    hide Carried, Product;
    var size := [0x8000_0000_0000_0001, 2];
    TwoDimensions(size[0], size[1]);
    CarryCounts(size, [0, 1], 0);
    assert Number(size, [0, 1]) == 1 by {
      hide Wrap, Count, Overruns;
      assert [0, 1][..1] == [0] && size[..1] == [size[0]];
      assert Number(size[..1], [0]) == 0;
    }
  }

  /** 2^32 rows of 2^32: the table is empty, and nothing is written although there are multi-indices. */
  lemma EmptyTable()
    ensures var size := [0x1_0000_0000, 0x1_0000_0000];
      Count(size) >= MODULUS && Wrap(Count(size)) == 0 && !Overruns(size)
  {
    TwoDimensions(0x1_0000_0000, 0x1_0000_0000);
  }

  lemma WrapAdd(x: int, y: int)
    ensures Wrap(Wrap(x) + y) == Wrap(x + y)
  {
    WrapShift(Wrap(x) + y, x / MODULUS);
  }

  lemma WrapSubtract(x: int, y: int)
    ensures Wrap(Wrap(x) - Wrap(y)) == Wrap(x - y)
  {
    WrapShift(Wrap(x) - Wrap(y), x / MODULUS - y / MODULUS);
  }

  lemma WrapProduct(x: nat, s: nat)
    ensures Wrap(Wrap(x) * s) == Wrap(x * s)
  {
    var q := x / MODULUS;
    assert x * s == Wrap(x) * s + (q * s) * MODULUS;
    WrapShift(Wrap(x) * s, q * s);
  }

  lemma {:induction false} ProductPrefix(size: seq<nat>, i: nat)
    requires i < |size|
    ensures Product(size[..i + 1]) == Product(size[..i]) * size[i]
  {
    assert size[..i + 1][..i] == size[..i];
  }

  lemma ResetDigits(size: seq<nat>, before: seq<nat>, now: seq<nat>, i: nat)
    requires |size| == |before| == |now| && i < |now| && AtEndAfter(size, before, i) && InRange(size, before)
    requires before[i] + 1 < size[i]
    requires now[..i] == before[..i] && now[i] == before[i] + 1
    requires forall j :: i < j < |now| ==> now[j] == 0
    ensures now == Carried(before, i) && InRange(size, now)
  {
  }

  // ----- the table -----

  datatype Turned = Stored | Ended | BehindTable

  class Gslice {
    const size: seq<nat>
    const stride: seq<nat>
    var table: array<nat>

    constructor (start: nat, size: seq<nat>, stride: seq<nat>)
      requires |size| == |stride|
      ensures this.size == size && this.stride == stride && fresh(table)
      ensures table.Length == Wrap(Count(size))
      ensures Filled(start, size, stride, table[..], table.Length)
    {
      this.size := size;
      this.stride := stride;
      table := new nat[0];
      new;
      var _ := Init(start);
    }

    method CountElements() returns (k: nat)
      ensures k == Wrap(Count(size))
    {
      k := if |size| != 0 then 1 else 0;
      var i := 0;
      while i < |size|
        invariant 0 <= i <= |size|
        invariant k == if |size| == 0 then 0 else Wrap(Product(size[..i]))
      {
        ProductPrefix(size, i);
        WrapProduct(Product(size[..i]), size[i]);
        k := Wrap(k * size[i]);
        i := i + 1;
      }
      assert size[..|size|] == size;
    }

    /** The inner loop of the odometer: increments the last digit that is not at its end, and
        resets those to its right; without such a digit the odometer is at its end. */
    method Advance(indices: array<nat>) returns (more: bool, i: nat)
      requires indices.Length == |size| > 0 && InRange(size, indices[..])
      modifies indices
      ensures more ==> i < |size| && AtEndAfter(size, old(indices[..]), i)
      ensures more ==> indices[..] == Carried(old(indices[..]), i)
      ensures more ==> InRange(size, indices[..])
      ensures !more ==> AtEndAfter(size, old(indices[..]), -1)
    {
      ghost var before := indices[..];
      i := indices.Length - 1;
      while true
        invariant i < indices.Length
        invariant AtEndAfter(size, before, i)
        invariant indices[..i + 1] == before[..i + 1]
        invariant forall j :: i < j < indices.Length ==> indices[j] == 0
        decreases i
      {
        assert indices[i] == before[i] && indices[..i] == before[..i];
        indices[i] := indices[i] + 1;
        assert indices[..i] == before[..i];
        if indices[i] < size[i] {
          ResetDigits(size, before, indices[..], i);
          return true, i;
        }
        if i == 0 {
          return false, i;
        }
        indices[i] := 0;
        i := i - 1;
      }
    }

    /** The entry after a carry at dimension i. */
    method Store(k: nat, i: nat)
      requires |size| == |stride| && i < |size| && 0 < k < table.Length
      modifies table
      ensures table[..] == old(table[..])[k :=
        Wrap(old(table[k - 1]) + Move(stride, size, i))]
    {
      table[k] := Wrap(table[k - 1] + stride[i]);
      var j := i + 1;
      while j != |size|
        invariant i + 1 <= j <= |size|
        invariant table[..] == old(table[..])[k :=
          Wrap(old(table[k - 1]) + stride[i] - Rewind(stride, size, i + 1, j))]
      {
        WrapSubtract(old(table[k - 1]) + stride[i] - Rewind(stride, size, i + 1, j), End(stride, size, j));
        table[k] := Wrap(table[k] - Wrap(stride[j] * (size[j] as int - 1)));
        j := j + 1;
      }
    }

    /** indices holds the multi-index of entry k, and the table is filled up to it. */
    ghost predicate At(start: nat, indices: array<nat>, k: nat)
      reads this, table, indices
    {
      && |size| == |stride| == indices.Length && indices != table && table.Length == Wrap(Product(size))
      && InRange(size, indices[..]) && Number(size, indices[..]) == k < table.Length
      && table[k] == Selected(start, stride, indices[..])
      && Filled(start, size, stride, table[..], k + 1)
    }

    /** The outer loop's body: the next multi-index and its entry, or the end of the odometer.  A
        store behind the table is where the source's behaviour ends; so does the model's. */
    method Turn(start: nat, indices: array<nat>, k: nat) returns (turned: Turned)
      requires At(start, indices, k) && |size| > 0
      modifies indices, table
      ensures turned == Stored ==> At(start, indices, k + 1)
      ensures turned != Stored ==> table.Length == k + 1 && table[..] == old(table[..])
      ensures turned == Ended ==> Product(size) == table.Length
      ensures turned == BehindTable ==> Product(size) > table.Length
    {
      ghost var before, filled := indices[..], table[..];
      var more, i := Advance(indices);
      assert table[..] == filled;
      WrapSmall(Product(size));
      if !more {
        LastNumber(size, before);
        return Ended;
      }
      CarryCounts(size, before, i);
      NumberBound(size, indices[..]);
      if k + 1 == table.Length {
        return BehindTable;
      }
      NextSelected(start, size, stride, before, i);
      ghost var after := indices[..];
      Store(k + 1, i);
      assert indices[..] == after;
      FillNext(start, size, stride, filled, table[..], after);
      return Stored;
    }

    /** Fills the table, and reports whether the run then reaches a store behind it. */
    method Init(start: nat) returns (overruns: bool)
      requires |size| == |stride|
      modifies this
      ensures fresh(table) && table.Length == Wrap(Count(size))
      ensures Filled(start, size, stride, table[..], table.Length)
      ensures overruns <==> Overruns(size)
    {
      hide Number, Dot, Product, InRange, Wrap;
      var indices := new nat[|size|](_ => 0);
      var k := CountElements();
      WrapSmall(Count(size));
      table := new nat[k](_ => 0);
      if k == 0 {
        return false;
      }
      FirstMultiIndex(size, stride, indices[..]);
      table[0] := Wrap(start);
      FillNext(start, size, stride, table[..], table[..], indices[..]);
      k := 0;
      var turned := Stored;
      while turned == Stored
        invariant fresh(table) && fresh(indices) && table.Length == Wrap(Product(size))
        invariant turned == Stored ==> At(start, indices, k)
        invariant turned != Stored ==> Filled(start, size, stride, table[..], table.Length)
        invariant turned == Ended ==> Product(size) == table.Length
        invariant turned == BehindTable ==> Product(size) > table.Length
        decreases turned == Stored, table.Length - k
      {
        turned := Turn(start, indices, k);
        k := k + 1;
      }
      return turned == BehindTable;
    }
  }

  lemma WrapStep(x: int, x': int, start: int, move: int)
    requires x' == x + move
    ensures Wrap(start + x') == Wrap(Wrap(start + x) + move)
  {
    WrapAdd(start + x, move);
  }

  /** The element selected after a carry, computed from the one before as the loop does. */
  lemma NextSelected(start: nat, size: seq<nat>, stride: seq<nat>, d: seq<nat>, i: nat)
    requires |size| == |stride| == |d| && i < |d| && AtEndAfter(size, d, i)
    ensures Selected(start, stride, Carried(d, i)) == Wrap(Selected(start, stride, d) + Move(stride, size, i))
  {
    CarryMoves(stride, size, d, i);
    WrapStep(Dot(stride, d), Dot(stride, Carried(d, i)), start, Move(stride, size, i));
  }

  /** Every multi-index numbered below n has its element at its place. */
  ghost predicate Filled(start: nat, size: seq<nat>, stride: seq<nat>, t: seq<nat>, n: nat)
    requires |size| == |stride|
  {
    && n <= |t|
    && forall d :: InRange(size, d) && Number(size, d) < n ==> t[Number(size, d)] == Selected(start, stride, d)
  }

  lemma FillNext(start: nat, size: seq<nat>, stride: seq<nat>, t: seq<nat>, t': seq<nat>, d: seq<nat>)
    requires |size| == |stride| && InRange(size, d)
    requires Number(size, d) < |t| && Filled(start, size, stride, t, Number(size, d))
    requires t' == t[Number(size, d) := Selected(start, stride, d)]
    ensures Filled(start, size, stride, t', Number(size, d) + 1)
  {
    forall e | InRange(size, e) && Number(size, e) == Number(size, d) ensures e == d {
      DigitsOfNumber(size, e);
      DigitsOfNumber(size, d);
    }
  }

  /** The filled table, entry by entry: the k-th entry belongs to the k-th multi-index. */
  lemma FilledInOrder(start: nat, size: seq<nat>, stride: seq<nat>, t: seq<nat>, k: nat)
    requires |size| == |stride| && k < Product(size) <= |t| && Filled(start, size, stride, t, Product(size))
    ensures t[k] == Selected(start, stride, Digits(size, k))
  {
    NumberOfDigits(size, k);
  }

  lemma FirstMultiIndex(size: seq<nat>, stride: seq<nat>, d: seq<nat>)
    requires |d| == |size| == |stride| && Product(size) > 0 && forall i :: 0 <= i < |d| ==> d[i] == 0
    ensures InRange(size, d) && Number(size, d) == 0 && Dot(stride, d) == 0
  {
    AllPositive(size);
    ZeroNumber(size, d);
    ZeroDot(stride, d);
  }

  lemma {:induction false} ZeroNumber(size: seq<nat>, d: seq<nat>)
    requires |d| == |size| && forall i :: 0 <= i < |d| ==> d[i] == 0
    ensures Number(size, d) == 0
  {
    if d == [] {
    } else {
      ZeroNumber(size[..|d| - 1], d[..|d| - 1]);
    }
  }

  lemma {:induction false} ZeroDot(stride: seq<nat>, d: seq<nat>)
    requires |d| == |stride| && forall i :: 0 <= i < |d| ==> d[i] == 0
    ensures Dot(stride, d) == 0
  {
    if d == [] {
    } else {
      ZeroDot(stride[..|d| - 1], d[..|d| - 1]);
    }
  }
}
