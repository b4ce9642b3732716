/** ARM_MPU_LoadEx: regions written through a window of alias registers, against one region at a time. */
module Mpu {
  import opened Bytes

  datatype Region = Region(rbar: int, rlar: int)

  /** The words of a region table in memory order. */
  function TableWord(table: seq<Region>, w: nat): int
    requires w < 2 * |table|
  {
    if w % 2 == 0 then table[w / 2].rbar else table[w / 2].rlar
  }

  /** Region t with one of its two registers stored. */
  function PutWord(regions: seq<Region>, t: nat, w: nat, value: int): (r: seq<Region>)
    requires t < |regions|
    ensures |r| == |regions|
  {
    regions[t := if w % 2 == 0 then regions[t].(rbar := value) else regions[t].(rlar := value)]
  }

  /** The regions after the first w words of table have been stored from region a on. */
  function Stored(regions: seq<Region>, a: nat, table: seq<Region>, w: nat): (r: seq<Region>)
    requires w <= 2 * |table| && a + |table| <= |regions|
    ensures |r| == |regions|
  {
    var whole := Splice(regions, a, table[..w / 2]);
    if w % 2 == 0 then whole else whole[a + w / 2 := regions[a + w / 2].(rbar := table[w / 2].rbar)]
  }

  lemma StoredStep(regions: seq<Region>, a: nat, table: seq<Region>, w: nat)
    requires w < 2 * |table| && a + |table| <= |regions|
    ensures Stored(regions, a, table, w + 1) == PutWord(Stored(regions, a, table, w), a + w / 2, w, TableWord(table, w))
  {
  }

  lemma StoredEnds(regions: seq<Region>, a: nat, table: seq<Region>)
    requires a + |table| <= |regions|
    ensures Stored(regions, a, table, 0) == regions
      && Stored(regions, a, table, 2 * |table|) == Splice(regions, a, table)
  {
    assert table[..|table|] == table;
  }

  /** x & ~(2^k - 1): the low k bits cleared. */
  function ClearLow(x: nat, k: nat): (r: nat) {
    if k == 0 then x else 2 * ClearLow(x / 2, k - 1)
  }

  /** It is the mask the code computes, bit by bit. */
  lemma {:induction false} ClearLowBits(x: nat, k: nat, i: nat)
    ensures BitOf(ClearLow(x, k), i) <==> i >= k && BitOf(x, i)
  {
    if k > 0 && i > 0 {
      ClearLowBits(x / 2, k - 1, i - 1);
    }
  }

  /** And it is x rounded down to a multiple of 2^k, in step with the remainder the code takes. */
  lemma {:induction false} ClearLowAligned(x: nat, k: nat)
    ensures ClearLow(x, k) == Pow2(k) * (x / Pow2(k)) == x - x % Pow2(k)
  {
    if k > 0 {
      ClearLowAligned(x / 2, k - 1);
      assert x / 2 / Pow2(k - 1) == x / (2 * Pow2(k - 1)) by { HalfDiv(x, Pow2(k - 1)); }
    }
  }

  lemma {:induction false} ClearLowTwice(x: nat, k: nat)
    ensures ClearLow(ClearLow(x, k), k) == ClearLow(x, k)
  {
    if k > 0 {
      ClearLowTwice(x / 2, k - 1);
    }
  }

  lemma HalfDiv(x: nat, m: nat)
    requires m > 0
    ensures x / 2 / m == x / (2 * m)
  {
    var q := x / 2 / m;
    var r := x / 2 % m;
    assert x == 2 * m * q + (2 * r + x % 2);
    QuotientIs(x, 2 * m, q, 2 * r + x % 2);
  }

  lemma {:induction false} QuotientIs(x: int, m: int, q: int, r: int)
    requires m > 0 && x == m * q + r && 0 <= r < m
    ensures x / m == q && x % m == r
  {
    var d := x / m - q;
    assert m * d == r - x % m by { assert m * d == m * (x / m) - m * q; }
    assert d >= 1 ==> m * d >= m;
    assert d <= -1 ==> m * d <= -m;
  }

  class MpuRegs {
    /** MPU_TYPE_RALIASES is 2^width. */
    const width: nat
    var rnr: nat
    const regions: array<Region>

    constructor (width: nat, n: nat)
      ensures this.width == width && fresh(regions) && regions.Length == n
    {
      this.width := width;
      rnr := 0;
      regions := new Region[n](_ => Region(0, 0));
    }

    function Aliases(): (n: nat)
      ensures n > 0
    {
      Pow2(width)
    }

    /** The region behind word w of the window: RBAR and RLAR follow RNR, their aliases its aligned group. */
    function Target(w: nat): nat
      reads this`rnr
    {
      if w / 2 == 0 then rnr else ClearLow(rnr, width) + w / 2
    }

    /** A store to word w of RBAR, RLAR and their aliases. The precondition is that the window is not left. */
    method WriteWord(w: nat, value: int)
      requires w < 2 * Aliases() && Target(w) < regions.Length
      modifies regions
      ensures regions[..] == PutWord(old(regions[..]), Target(w), w, value)
    {
      var t := Target(w);
      regions[t] := if w % 2 == 0 then regions[t].(rbar := value) else regions[t].(rlar := value);
    }

    /** ARM_MPU_SetRegionEx */
    method SetRegionEx(number: nat, rbar: int, rlar: int)
      requires number < regions.Length
      modifies this`rnr, regions
      ensures regions[..] == old(regions[..])[number := Region(rbar, rlar)] && rnr == number
    {
      rnr := number;
      WriteWord(0, rbar);
      WriteWord(1, rlar);
    }

    /** orderedCpy of a table into the window from entry offset on. */
    method OrderedCpy(offset: nat, table: seq<Region>)
      requires offset + |table| <= Aliases() && rnr + offset + |table| <= regions.Length
      requires rnr == ClearLow(rnr, width) || (offset == 0 && |table| <= 1)
      modifies regions
      ensures regions[..] == Splice(old(regions[..]), rnr + offset, table)
    {
      hide Splice, Stored;
      ghost var was := regions[..];
      StoredEnds(was, rnr + offset, table);
      for i := 0 to 2 * |table|
        invariant regions[..] == Stored(was, rnr + offset, table, i)
      {
        assert Target(2 * offset + i) == rnr + offset + i / 2 && (2 * offset + i) % 2 == i % 2;
        StoredStep(was, rnr + offset, table, i);
        WriteWord(2 * offset + i, TableWord(table, i));
      }
    }

    /** ARM_MPU_LoadEx: cnt regions of table from region number on. */
    method LoadEx(number: nat, table: seq<Region>, cnt: nat)
      requires cnt <= |table| && number + cnt <= regions.Length
      modifies this`rnr, regions
      ensures regions[..] == Splice(old(regions[..]), number, table[..cnt])
    {
      hide ClearLow, Splice;
      if cnt == 1 {
        rnr := number;
        OrderedCpy(0, table[..1]);
      } else {
        ClearLowAligned(number, width);
        ClearLowTwice(number, width);
        LoadRows(ClearLow(number, width), number % Aliases(), table[..cnt]);
      }
    }

    /** The while loop of ARM_MPU_LoadEx over the rows of the window, and the copy after it. */
    method LoadRows(base: nat, offset: nat, table: seq<Region>)
      requires base == ClearLow(base, width) && offset < Aliases() && base + offset + |table| <= regions.Length
      modifies this`rnr, regions
      ensures regions[..] == Splice(old(regions[..]), base + offset, table)
    {
      hide ClearLow, Splice;
      ghost var was, first := regions[..], base + offset;
      var rnrBase: nat, rnrOffset: nat, done: nat := base, offset, 0;
      rnr := rnrBase;
      SpliceNone(was, first);
      assert table[..0] == [];
      while rnrOffset + (|table| - done) > Aliases()
        invariant rnr == rnrBase == ClearLow(rnrBase, width) && rnrOffset < Aliases()
        invariant done <= |table| && rnrBase + rnrOffset == first + done
        invariant regions[..] == Splice(was, first, table[..done])
        decreases |table| - done
      {
        var c := Aliases() - rnrOffset;
        OrderedCpy(rnrOffset, table[done..done + c]);
        SpliceMore(was, first, table, done, c);
        done := done + c;
        rnrOffset := 0;
        NextRow(rnrBase, width);
        rnrBase := rnrBase + Aliases();
        rnr := rnrBase;
      }
      OrderedCpy(rnrOffset, table[done..]);
      SpliceMore(was, first, table, done, |table| - done);
      assert table[done..] == table[done..done + (|table| - done)] && table[..|table|] == table;
    }

    /** The simple form: one region after another. */
    method LoadEach(number: nat, table: seq<Region>, cnt: nat)
      requires cnt <= |table| && number + cnt <= regions.Length
      modifies this`rnr, regions
      ensures regions[..] == Splice(old(regions[..]), number, table[..cnt])
    {
      for i := 0 to cnt
        invariant regions[..] == Splice(old(regions[..]), number, table[..i])
      {
        SpliceStep(old(regions[..]), number, table, i);
        SetRegionEx(number + i, table[i].rbar, table[i].rlar);
      }
    }
  }

  lemma NextMultiple(x: nat, m: nat)
    requires m > 0 && x == m * (x / m)
    ensures (x + m) % m == 0
  {
    var q := x / m + 1;
    assert x + m == m * q by { assert m * q == m * (x / m) + m; }
    QuotientIs(x + m, m, q, 0);
  }

  lemma NextRow(x: nat, k: nat)
    requires x == ClearLow(x, k)
    ensures x + Pow2(k) == ClearLow(x + Pow2(k), k)
  {
    hide ClearLow, Pow2;
    ClearLowAligned(x, k);
    ClearLowAligned(x + Pow2(k), k);
    NextMultiple(x, Pow2(k));
  }

  /** A splice of a longer part, in two steps. */
  lemma SpliceMore(s: seq<Region>, a: nat, x: seq<Region>, done: nat, c: nat)
    requires done + c <= |x| && a + |x| <= |s|
    ensures Splice(Splice(s, a, x[..done]), a + done, x[done..done + c]) == Splice(s, a, x[..done + c])
  {
  }
}
