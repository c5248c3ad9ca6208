/** The patch map of a pixel grid wired to lighting universes: which byte of the
    flat colour buffer each universe channel takes its value from.

    The table is compiled by visiting the pixels with x in the outer loop and y in
    the inner loop and, for each pixel, writing the offsets of its red, green and
    blue bytes into the universe slots it is wired to. A later write to the same
    slot replaces an earlier one. */
module Topology {

  /** A channel slot that no pixel component feeds. */
  const Unassigned: int := -1

  /** How one pixel is wired: its universe and the channels of that universe that
      carry its red, green and blue components. */
  datatype Patch = Patch(universe: int, red: int, green: int, blue: int)

  /** The channel that carries component c (0 red, 1 green, 2 blue) of a pixel. */
  function Channel(p: Patch, c: int): (ch: int)
  {
    if c == 0 then p.red else if c == 1 then p.green else p.blue
  }

  /** Offset of component c of pixel (x, y) in the row-major colour buffer of a grid
      `width` pixels wide. */
  function Offset(width: int, x: int, y: int, c: int): (o: int)
  {
    (y * width + x) * 3 + c
  }

  /** For each universe, its channel slots: Unassigned or an offset into the colour buffer. */
  type Table = seq<seq<int>>

  /** The pixel names a universe that exists and three channels inside it. */
  predicate Fits(channels: seq<nat>, p: Patch)
  {
    && 0 <= p.universe < |channels|
    && 0 <= p.red < channels[p.universe]
    && 0 <= p.green < channels[p.universe]
    && 0 <= p.blue < channels[p.universe]
  }

  /** What the compiler needs of its inputs. `channels[u]` is the channel count of
      universe u; `grid[x][y]` wires pixel (x, y). The grid is |grid| pixels wide and
      |grid[0]| pixels high: it has a first column, no column is shorter than the
      first, and every pixel it covers names slots that exist. */
  predicate WellFormed(channels: seq<nat>, grid: seq<seq<Patch>>)
  {
    && |grid| > 0
    && (forall x :: 0 <= x < |grid| ==> |grid[0]| <= |grid[x]|)
    && (forall x, y :: 0 <= x < |grid| && 0 <= y < |grid[0]| ==> Fits(channels, grid[x][y]))
  }

  /** Component c of pixel (x, y) is wired to slot ch of universe u. */
  predicate Names(grid: seq<seq<Patch>>, x: int, y: int, c: int, u: int, ch: int)
  {
    && 0 <= x < |grid| && 0 <= y < Height(grid) && y < |grid[x]| && 0 <= c < 3
    && grid[x][y].universe == u && Channel(grid[x][y], c) == ch
  }

  /** Component c' of pixel (x', y') is visited after component c of pixel (x, y). */
  predicate Later(x': int, y': int, c': int, x: int, y: int, c: int)
  {
    x' > x || (x' == x && (y' > y || (y' == y && c' > c)))
  }

  /** Universe u of the table has channels[u] slots. */
  predicate Shaped(t: Table, channels: seq<nat>)
  {
    |t| == |channels| && forall u :: 0 <= u < |t| ==> |t[u]| == channels[u]
  }

  /** Every slot is Unassigned or an offset below n. */
  predicate Below(t: Table, n: int)
  {
    forall u :: 0 <= u < |t| ==> RowBelow(t[u], n)
  }

  predicate RowBelow(row: seq<int>, n: int)
  {
    forall ch :: 0 <= ch < |row| ==> row[ch] == Unassigned || 0 <= row[ch] < n
  }

  /** The table before any pixel is written: every slot Unassigned. */
  function Blank(channels: seq<nat>): (t: Table)
    ensures Shaped(t, channels)
    ensures forall u, ch :: 0 <= u < |t| && 0 <= ch < |t[u]| ==> t[u][ch] == Unassigned
  {
    seq(|channels|, u requires 0 <= u < |channels| => seq(channels[u], _ => Unassigned))
  }

  /** The two tables have the same number of universes and the same number of
      slots in each. */
  predicate SameShape(a: Table, b: Table)
  {
    |a| == |b| && forall u :: 0 <= u < |a| ==> |a[u]| == |b[u]|
  }

  /** Slot ch of universe u set to v; a slot that does not exist is not written. */
  function Put(t: Table, u: int, ch: int, v: int): (r: Table)
  {
    if 0 <= u < |t| && 0 <= ch < |t[u]| then t[u := t[u][ch := v]] else t
  }

  /** One slot write: the slot that exists takes v, the table keeps its shape, and
      every other slot keeps its value. */
  lemma PutSlot(t: Table, u: int, ch: int, v: int)
    ensures SameShape(Put(t, u, ch, v), t)
    ensures 0 <= u < |t| && 0 <= ch < |t[u]| ==> Put(t, u, ch, v)[u][ch] == v
    ensures forall u', ch' :: 0 <= u' < |t| && 0 <= ch' < |t[u']| && (u', ch') != (u, ch) ==>
              Put(t, u, ch, v)[u'][ch'] == t[u'][ch']
  {
  }

  /** The three writes made for pixel (x, y): red, then green, then blue. */
  function PatchPixel(t: Table, grid: seq<seq<Patch>>, x: int, y: int): (r: Table)
    ensures SameShape(r, t)
  {
    if 0 <= x < |grid| && 0 <= y < |grid[x]| then
      var p := grid[x][y];
      var w := |grid|;
      var t1 := Put(t, p.universe, p.red, Offset(w, x, y, 0));
      var t2 := Put(t1, p.universe, p.green, Offset(w, x, y, 1));
      Put(t2, p.universe, p.blue, Offset(w, x, y, 2))
    else t
  }

  /** The table after pixels (x, 0) .. (x, y - 1) have been written into t. */
  function PatchColumn(t: Table, grid: seq<seq<Patch>>, x: int, y: nat): (r: Table)
  {
    if y == 0 then t
    else PatchPixel(PatchColumn(t, grid, x, y - 1), grid, x, y - 1)
  }

  /** The height of the grid: the length of its first column. */
  function Height(grid: seq<seq<Patch>>): (h: nat)
  {
    if grid == [] then 0 else |grid[0]|
  }

  /** The number of pixels: the width of the grid times its height. */
  function Area(grid: seq<seq<Patch>>): (n: nat)
  {
    |grid| * Height(grid)
  }

  /** The table after the columns 0 .. x - 1 have been written into t. */
  function PatchColumns(t: Table, grid: seq<seq<Patch>>, x: nat): (r: Table)
  {
    if x == 0 then t
    else PatchColumn(PatchColumns(t, grid, x - 1), grid, x - 1, Height(grid))
  }

  /** The compiled patch map. */
  function Compile(channels: seq<nat>, grid: seq<seq<Patch>>): (t: Table)
    ensures Shaped(t, channels)
  {
    ColumnsShape(Blank(channels), grid, |grid|);
    PatchColumns(Blank(channels), grid, |grid|)
  }

  // ---------------------------------------------------------------------------
  // Offsets

  /** Every offset of a pixel inside a width x height grid lies in the colour buffer. */
  lemma OffsetBound(width: int, height: int, x: int, y: int, c: int)
    requires 0 <= x < width && 0 <= y < height && 0 <= c < 3
    ensures 0 <= Offset(width, x, y, c) < 3 * (width * height)
  {
    assert 0 <= y * width;
    assert y * width + x < (y + 1) * width;
    assert (y + 1) * width <= height * width;
  }

  /** Distinct components of distinct pixels have distinct offsets. */
  lemma OffsetInjective(width: int, x: int, y: int, c: int, x': int, y': int, c': int)
    requires 0 <= x < width && 0 <= x' < width && 0 <= y && 0 <= y'
    requires 0 <= c < 3 && 0 <= c' < 3
    requires Offset(width, x, y, c) == Offset(width, x', y', c')
    ensures x == x' && y == y' && c == c'
  {
    var p, p' := y * width + x, y' * width + x';
    DigitsUnique(3, p, c, p', c');
    if y < y' {
      RowStart(width, y, y');
    } else if y' < y {
      RowStart(width, y', y);
    }
  }

  /** Pixel (x, y) has row-major index y * width + x, inside the grid, and x and y
      are recovered from it by remainder and quotient. */
  lemma PixelIndex(width: int, height: int, x: int, y: int)
    requires 0 <= x < width && 0 <= y < height
    ensures 0 <= y * width + x < width * height
    ensures (y * width + x) % width == x && (y * width + x) / width == y
  {
    var i := y * width + x;
    RowStart(width, y, height);
    assert 0 <= y * width;
    DigitsUnique(width, y, x, i / width, i % width);
  }

  /** Quotient and remainder by a positive divisor are unique. */
  lemma DigitsUnique(d: int, q: int, r: int, q': int, r': int)
    requires 0 <= r < d && 0 <= r' < d
    requires q * d + r == q' * d + r'
    ensures q == q' && r == r'
  {
    if q < q' {
      RowStart(d, q, q');
    } else if q' < q {
      RowStart(d, q', q);
    }
  }

  /** A later row starts at least a whole row further on. */
  lemma RowStart(width: int, y: int, y': int)
    requires 0 < width && y < y'
    ensures y * width + width <= y' * width
  {
    var k := y' - y;
    MulAtLeast(k, width);
    calc {
      y' * width;
    ==
      (y + k) * width;
    ==
      y * width + k * width;
    }
  }

  lemma {:induction false} MulAtLeast(k: int, width: int)
    requires 1 <= k && 0 <= width
    ensures width <= k * width
    decreases k
  {
    if k > 1 {
      MulAtLeast(k - 1, width);
      assert k * width == (k - 1) * width + width;
    }
  }

  // ---------------------------------------------------------------------------
  // Which offset ends up in a slot

  /** The value of slot ch of universe u after pixel (x, y) is written over v: the
      offset of the last of its components that names the slot, or v. */
  function PixelValue(v: int, grid: seq<seq<Patch>>, x: int, y: int, u: int, ch: int): (r: int)
  {
    if Names(grid, x, y, 2, u, ch) then Offset(|grid|, x, y, 2)
    else if Names(grid, x, y, 1, u, ch) then Offset(|grid|, x, y, 1)
    else if Names(grid, x, y, 0, u, ch) then Offset(|grid|, x, y, 0)
    else v
  }

  /** The value of the slot after pixels (x, 0) .. (x, y - 1) are written over v. */
  function ColumnValue(v: int, grid: seq<seq<Patch>>, x: int, y: nat, u: int, ch: int): (r: int)
  {
    if y == 0 then v else PixelValue(ColumnValue(v, grid, x, y - 1, u, ch), grid, x, y - 1, u, ch)
  }

  /** The value of the slot after columns 0 .. x - 1 are written over v. */
  function ColumnsValue(v: int, grid: seq<seq<Patch>>, x: nat, u: int, ch: int): (r: int)
  {
    if x == 0 then v else ColumnValue(ColumnsValue(v, grid, x - 1, u, ch), grid, x - 1, Height(grid), u, ch)
  }

  /** Writing pixel (x, y) into the table keeps slot ch of universe u and changes
      it as PixelValue says. */
  lemma PixelSlot(t: Table, grid: seq<seq<Patch>>, x: int, y: int, u: int, ch: int)
    requires 0 <= y < Height(grid)
    requires 0 <= u < |t| && 0 <= ch < |t[u]|
    ensures 0 <= u < |PatchPixel(t, grid, x, y)| && 0 <= ch < |PatchPixel(t, grid, x, y)[u]|
    ensures PatchPixel(t, grid, x, y)[u][ch] == PixelValue(t[u][ch], grid, x, y, u, ch)
  {
  }

  lemma {:induction false} ColumnSlot(t: Table, grid: seq<seq<Patch>>, x: int, y: nat, u: int, ch: int)
    requires y <= Height(grid)
    requires 0 <= u < |t| && 0 <= ch < |t[u]|
    ensures 0 <= u < |PatchColumn(t, grid, x, y)| && 0 <= ch < |PatchColumn(t, grid, x, y)[u]|
    ensures PatchColumn(t, grid, x, y)[u][ch] == ColumnValue(t[u][ch], grid, x, y, u, ch)
  {
    if y > 0 {
      var prev := PatchColumn(t, grid, x, y - 1);
      ColumnSlot(t, grid, x, y - 1, u, ch);
      PixelSlot(prev, grid, x, y - 1, u, ch);
      assert PatchColumn(t, grid, x, y) == PatchPixel(prev, grid, x, y - 1);
      assert ColumnValue(t[u][ch], grid, x, y, u, ch)
          == PixelValue(ColumnValue(t[u][ch], grid, x, y - 1, u, ch), grid, x, y - 1, u, ch);
    }
  }

  /** Writing the first x columns into the table keeps every slot and changes each
      as ColumnsValue says: the table fold is the per-slot fold, slot by slot. */
  lemma {:induction false} ColumnsSlot(t: Table, grid: seq<seq<Patch>>, x: nat, u: int, ch: int)
    requires 0 <= u < |t| && 0 <= ch < |t[u]|
    ensures 0 <= u < |PatchColumns(t, grid, x)| && 0 <= ch < |PatchColumns(t, grid, x)[u]|
    ensures PatchColumns(t, grid, x)[u][ch] == ColumnsValue(t[u][ch], grid, x, u, ch)
  {
    if x > 0 {
      ColumnsSlot(t, grid, x - 1, u, ch);
      ColumnSlot(PatchColumns(t, grid, x - 1), grid, x - 1, Height(grid), u, ch);
    }
  }

  /** Writes never add or remove slots. */
  lemma PixelShape(t: Table, grid: seq<seq<Patch>>, x: int, y: int)
    ensures SameShape(PatchPixel(t, grid, x, y), t)
  {
  }

  lemma {:induction false} ColumnShape(t: Table, grid: seq<seq<Patch>>, x: int, y: nat)
    ensures SameShape(PatchColumn(t, grid, x, y), t)
  {
    if y > 0 {
      ColumnShape(t, grid, x, y - 1);
      PixelShape(PatchColumn(t, grid, x, y - 1), grid, x, y - 1);
    }
  }

  lemma {:induction false} ColumnsShape(t: Table, grid: seq<seq<Patch>>, x: nat)
    ensures SameShape(PatchColumns(t, grid, x), t)
  {
    if x > 0 {
      ColumnsShape(t, grid, x - 1);
      ColumnShape(PatchColumns(t, grid, x - 1), grid, x - 1, Height(grid));
    }
  }

  /** A slot that no pixel of the column names keeps its value. */
  lemma {:induction false} ColumnUntouched(v: int, grid: seq<seq<Patch>>, x: int, y: nat, u: int, ch: int)
    requires forall y', c' :: 0 <= y' < y ==> !Names(grid, x, y', c', u, ch)
    ensures ColumnValue(v, grid, x, y, u, ch) == v
  {
    if y > 0 {
      ColumnUntouched(v, grid, x, y - 1, u, ch);
    }
  }

  /** Within a column, the slot holds the offset of the last component that names it. */
  lemma {:induction false} ColumnLastWins(v: int, grid: seq<seq<Patch>>, x: int, y: nat, yn: int, c: int, u: int, ch: int)
    requires 0 <= yn < y && Names(grid, x, yn, c, u, ch)
    requires forall y', c' :: 0 <= y' < y && Later(x, y', c', x, yn, c) ==> !Names(grid, x, y', c', u, ch)
    ensures ColumnValue(v, grid, x, y, u, ch) == Offset(|grid|, x, yn, c)
  {
    if yn < y - 1 {
      ColumnLastWins(v, grid, x, y - 1, yn, c, u, ch);
      assert Later(x, y - 1, 0, x, yn, c) && Later(x, y - 1, 1, x, yn, c) && Later(x, y - 1, 2, x, yn, c);
    } else {
      assert c < 2 ==> Later(x, yn, 2, x, yn, c);
      assert c < 1 ==> Later(x, yn, 1, x, yn, c);
    }
  }

  /** A slot that no visited pixel names keeps its value. */
  lemma {:induction false} ColumnsUntouched(v: int, grid: seq<seq<Patch>>, x: nat, u: int, ch: int)
    requires forall x', y', c' :: 0 <= x' < x ==> !Names(grid, x', y', c', u, ch)
    ensures ColumnsValue(v, grid, x, u, ch) == v
  {
    if x > 0 {
      ColumnsUntouched(v, grid, x - 1, u, ch);
      ColumnUntouched(v, grid, x - 1, Height(grid), u, ch);
    }
  }

  /** No pixel of a column after column xn names a slot that no component visited
      after component c of pixel (xn, yn) names. */
  lemma LaterColumn(grid: seq<seq<Patch>>, xl: int, xn: int, yn: int, c: int, u: int, ch: int)
    requires xn < xl
    requires forall x', y', c' :: 0 <= x' <= xl && Later(x', y', c', xn, yn, c) ==> !Names(grid, x', y', c', u, ch)
    ensures forall y', c' :: !Names(grid, xl, y', c', u, ch)
  {
    forall y', c' ensures !Names(grid, xl, y', c', u, ch) {
      assert Later(xl, y', c', xn, yn, c);
    }
  }

  /** Across the visited columns, the slot holds the offset of the last component
      that names it. */
  lemma {:induction false} ColumnsLastWins(v: int, grid: seq<seq<Patch>>, x: nat, xn: int, yn: int, c: int, u: int, ch: int)
    requires 0 <= xn < x && Names(grid, xn, yn, c, u, ch)
    requires forall x', y', c' :: 0 <= x' < x && Later(x', y', c', xn, yn, c) ==> !Names(grid, x', y', c', u, ch)
    ensures ColumnsValue(v, grid, x, u, ch) == Offset(|grid|, xn, yn, c)
  {
    var prev := ColumnsValue(v, grid, x - 1, u, ch);
    if xn < x - 1 {
      ColumnsLastWins(v, grid, x - 1, xn, yn, c, u, ch);
      LaterColumn(grid, x - 1, xn, yn, c, u, ch);
      ColumnUntouched(prev, grid, x - 1, Height(grid), u, ch);
    } else {
      ColumnLastWins(prev, grid, x - 1, Height(grid), yn, c, u, ch);
    }
  }

  /** The value of the slot after the first y pixels of column x is v, or the
      offset of a component of one of those pixels that names the slot. */
  lemma {:induction false} ColumnSource(v: int, grid: seq<seq<Patch>>, x: int, y: nat, u: int, ch: int)
    returns (yn: int, c: int)
    ensures
      || ColumnValue(v, grid, x, y, u, ch) == v
      || (0 <= yn < y && Names(grid, x, yn, c, u, ch) && ColumnValue(v, grid, x, y, u, ch) == Offset(|grid|, x, yn, c))
  {
    yn, c := 0, 0;
    if y > 0 {
      if Names(grid, x, y - 1, 2, u, ch) {
        yn, c := y - 1, 2;
      } else if Names(grid, x, y - 1, 1, u, ch) {
        yn, c := y - 1, 1;
      } else if Names(grid, x, y - 1, 0, u, ch) {
        yn, c := y - 1, 0;
      } else {
        yn, c := ColumnSource(v, grid, x, y - 1, u, ch);
      }
    }
  }

  /** The value of the slot after the first x columns is v, or the offset of a
      component of a visited pixel that names the slot. */
  lemma {:induction false} ColumnsSource(v: int, grid: seq<seq<Patch>>, x: nat, u: int, ch: int)
    returns (xn: int, yn: int, c: int)
    ensures
      || ColumnsValue(v, grid, x, u, ch) == v
      || (0 <= xn < x && Names(grid, xn, yn, c, u, ch) && ColumnsValue(v, grid, x, u, ch) == Offset(|grid|, xn, yn, c))
  {
    xn, yn, c := 0, 0, 0;
    if x > 0 {
      var prev := ColumnsValue(v, grid, x - 1, u, ch);
      var y', c' := ColumnSource(prev, grid, x - 1, Height(grid), u, ch);
      if ColumnsValue(v, grid, x, u, ch) == prev {
        xn, yn, c := ColumnsSource(v, grid, x - 1, u, ch);
      } else {
        xn, yn, c := x - 1, y', c';
      }
    }
  }

  /** Slot ch of universe u of the compiled table is the per-slot fold over all
      columns, starting from Unassigned. */
  lemma CompileSlot(channels: seq<nat>, grid: seq<seq<Patch>>, u: int, ch: int)
    requires 0 <= u < |channels| && 0 <= ch < channels[u]
    ensures 0 <= u < |Compile(channels, grid)| && 0 <= ch < |Compile(channels, grid)[u]|
    ensures Compile(channels, grid)[u][ch] == ColumnsValue(Unassigned, grid, |grid|, u, ch)
  {
    ColumnsSlot(Blank(channels), grid, |grid|, u, ch);
  }

  /** A slot that no pixel names is left Unassigned. */
  lemma CompileUnassigned(channels: seq<nat>, grid: seq<seq<Patch>>, u: int, ch: int)
    requires 0 <= u < |channels| && 0 <= ch < channels[u]
    requires forall x, y, c :: !Names(grid, x, y, c, u, ch)
    ensures Compile(channels, grid)[u][ch] == Unassigned
  {
    CompileSlot(channels, grid, u, ch);
    ColumnsUntouched(Unassigned, grid, |grid|, u, ch);
  }

  /** A slot that some pixel names holds the offset of the last component naming it,
      in the visiting order x outer, y inner, then red, green, blue. */
  lemma CompileLastWins(channels: seq<nat>, grid: seq<seq<Patch>>, x: int, y: int, c: int, u: int, ch: int)
    requires WellFormed(channels, grid)
    requires Names(grid, x, y, c, u, ch)
    requires forall x', y', c' :: Later(x', y', c', x, y, c) ==> !Names(grid, x', y', c', u, ch)
    ensures 0 <= u < |channels| && 0 <= ch < channels[u]
    ensures Compile(channels, grid)[u][ch] == Offset(|grid|, x, y, c)
  {
    assert Fits(channels, grid[x][y]);
    CompileSlot(channels, grid, u, ch);
    ColumnsLastWins(Unassigned, grid, |grid|, x, y, c, u, ch);
  }

  /** Every assigned slot holds the offset of a pixel component that names it. */
  lemma CompileSource(channels: seq<nat>, grid: seq<seq<Patch>>, u: int, ch: int) returns (x: int, y: int, c: int)
    requires 0 <= u < |channels| && 0 <= ch < channels[u]
    requires Compile(channels, grid)[u][ch] != Unassigned
    ensures Names(grid, x, y, c, u, ch)
    ensures Compile(channels, grid)[u][ch] == Offset(|grid|, x, y, c)
  {
    CompileSlot(channels, grid, u, ch);
    x, y, c := ColumnsSource(Unassigned, grid, |grid|, u, ch);
  }

  /** The compiled table has a slot for every channel of every universe, and every
      slot is Unassigned or an offset into the width x height x 3 colour buffer. */
  lemma CompileInRange(channels: seq<nat>, grid: seq<seq<Patch>>)
    requires WellFormed(channels, grid)
    ensures Shaped(Compile(channels, grid), channels)
    ensures Below(Compile(channels, grid), 3 * (|grid| * |grid[0]|))
  {
    var t := Compile(channels, grid);
    forall u | 0 <= u < |t| ensures RowBelow(t[u], 3 * (|grid| * |grid[0]|)) {
      forall ch | 0 <= ch < |t[u]| && t[u][ch] != Unassigned
        ensures 0 <= t[u][ch] < 3 * (|grid| * |grid[0]|)
      {
        var x, y, c := CompileSource(channels, grid, u, ch);
        OffsetBound(|grid|, |grid[0]|, x, y, c);
      }
    }
  }

  /** No two slots take their value from the same byte of the colour buffer. */
  lemma CompileInjective(channels: seq<nat>, grid: seq<seq<Patch>>, u: int, ch: int, u': int, ch': int)
    requires WellFormed(channels, grid)
    requires 0 <= u < |channels| && 0 <= ch < channels[u]
    requires 0 <= u' < |channels| && 0 <= ch' < channels[u']
    requires Compile(channels, grid)[u][ch] != Unassigned
    requires (u, ch) != (u', ch')
    ensures Compile(channels, grid)[u][ch] != Compile(channels, grid)[u'][ch']
  {
    var x, y, c := CompileSource(channels, grid, u, ch);
    if Compile(channels, grid)[u'][ch'] == Compile(channels, grid)[u][ch] {
      var x', y', c' := CompileSource(channels, grid, u', ch');
      OffsetInjective(|grid|, x, y, c, x', y', c');
    }
  }

  // ---------------------------------------------------------------------------
  // Number of assigned slots

  /** Number of slots of a universe that are not Unassigned. */
  function CountRow(row: seq<int>): (n: nat)
  {
    if row == [] then 0
    else CountRow(row[..|row| - 1]) + (if row[|row| - 1] == Unassigned then 0 else 1)
  }

  /** Number of slots of the whole table that are not Unassigned. */
  function Count(t: Table): (n: nat)
  {
    if t == [] then 0 else Count(t[..|t| - 1]) + CountRow(t[|t| - 1])
  }

  /** Position, in universe-then-channel order, of slot ch of universe u among the
      assigned slots. */
  function Slot(t: Table, u: int, ch: int): (k: nat)
    requires 0 <= u < |t| && 0 <= ch <= |t[u]|
  {
    Count(t[..u]) + CountRow(t[u][..ch])
  }

  lemma {:induction false} CountRowPrefix(row: seq<int>, k: int)
    requires 0 <= k <= |row|
    ensures CountRow(row[..k]) <= CountRow(row)
    decreases |row|
  {
    if k < |row| {
      assert row[..|row| - 1][..k] == row[..k];
      CountRowPrefix(row[..|row| - 1], k);
    } else {
      assert row[..k] == row;
    }
  }

  lemma {:induction false} CountPrefix(t: Table, k: int)
    requires 0 <= k <= |t|
    ensures Count(t[..k]) <= Count(t)
    decreases |t|
  {
    if k < |t| {
      assert t[..|t| - 1][..k] == t[..k];
      CountPrefix(t[..|t| - 1], k);
    } else {
      assert t[..k] == t;
    }
  }

  /** Slots are numbered from 0 up to the number of assigned slots. */
  lemma SlotBound(t: Table, u: int, ch: int)
    requires 0 <= u < |t| && 0 <= ch <= |t[u]|
    ensures Slot(t, u, ch) <= Count(t)
    ensures ch < |t[u]| && t[u][ch] != Unassigned ==> Slot(t, u, ch) < Count(t)
  {
    var row := t[u];
    assert t[..u + 1][..u] == t[..u];
    assert t[..u + 1][u] == row;
    assert Count(t[..u + 1]) == Count(t[..u]) + CountRow(row);
    CountPrefix(t, u + 1);
    CountRowPrefix(row, ch);
    if ch < |row| && row[ch] != Unassigned {
      assert row[..ch + 1][..ch] == row[..ch];
      CountRowPrefix(row, ch + 1);
    }
  }

  lemma {:induction false} CountRowUpdate(row: seq<int>, ch: int, v: int)
    requires 0 <= ch < |row|
    ensures CountRow(row[ch := v]) <= CountRow(row) + 1
    decreases |row|
  {
    var n := |row|;
    if ch == n - 1 {
      assert row[ch := v][..n - 1] == row[..n - 1];
    } else {
      assert row[ch := v][..n - 1] == row[..n - 1][ch := v];
      CountRowUpdate(row[..n - 1], ch, v);
    }
  }

  lemma {:induction false} CountUpdate(t: Table, u: int, row: seq<int>)
    requires 0 <= u < |t|
    ensures Count(t[u := row]) == Count(t) - CountRow(t[u]) + CountRow(row)
    decreases |t|
  {
    var n := |t|;
    if u == n - 1 {
      assert t[u := row][..n - 1] == t[..n - 1];
    } else {
      assert t[u := row][..n - 1] == t[..n - 1][u := row];
      CountUpdate(t[..n - 1], u, row);
    }
  }

  /** One write assigns at most one more slot. */
  lemma CountPut(t: Table, u: int, ch: int, v: int)
    ensures Count(Put(t, u, ch, v)) <= Count(t) + 1
  {
    if 0 <= u < |t| && 0 <= ch < |t[u]| {
      CountUpdate(t, u, t[u][ch := v]);
      CountRowUpdate(t[u], ch, v);
    }
  }

  lemma CountPixel(t: Table, grid: seq<seq<Patch>>, x: int, y: int)
    ensures Count(PatchPixel(t, grid, x, y)) <= Count(t) + 3
  {
    if 0 <= x < |grid| && 0 <= y < |grid[x]| {
      var p := grid[x][y];
      var w := |grid|;
      var t1 := Put(t, p.universe, p.red, Offset(w, x, y, 0));
      var t2 := Put(t1, p.universe, p.green, Offset(w, x, y, 1));
      CountPut(t, p.universe, p.red, Offset(w, x, y, 0));
      CountPut(t1, p.universe, p.green, Offset(w, x, y, 1));
      CountPut(t2, p.universe, p.blue, Offset(w, x, y, 2));
    }
  }

  lemma CountColumnStep(t: Table, grid: seq<seq<Patch>>, x: int, y: nat)
    requires 0 < y
    ensures Count(PatchColumn(t, grid, x, y)) <= Count(PatchColumn(t, grid, x, y - 1)) + 3
  {
    ColumnUnfold(t, grid, x, y);
    CountPixel(PatchColumn(t, grid, x, y - 1), grid, x, y - 1);
  }

  lemma ColumnUnfold(t: Table, grid: seq<seq<Patch>>, x: int, y: nat)
    requires 0 < y
    ensures PatchColumn(t, grid, x, y) == PatchPixel(PatchColumn(t, grid, x, y - 1), grid, x, y - 1)
  {
  }

  lemma {:induction false} CountColumn(t: Table, grid: seq<seq<Patch>>, x: int, y: nat)
    ensures Count(PatchColumn(t, grid, x, y)) <= Count(t) + 3 * y
  {
    if y > 0 {
      CountColumn(t, grid, x, y - 1);
      CountColumnStep(t, grid, x, y);
    }
  }

  lemma CountColumnsStep(t: Table, grid: seq<seq<Patch>>, x: nat)
    requires 0 < x
    ensures Count(PatchColumns(t, grid, x)) <= Count(PatchColumns(t, grid, x - 1)) + 3 * Height(grid)
  {
    var before := PatchColumns(t, grid, x - 1);
    assert PatchColumns(t, grid, x) == PatchColumn(before, grid, x - 1, Height(grid));
    CountColumn(before, grid, x - 1, Height(grid));
  }

  lemma {:induction false} CountColumns(t: Table, grid: seq<seq<Patch>>, x: nat)
    ensures Count(PatchColumns(t, grid, x)) <= Count(t) + Capacity(x, Height(grid))
  {
    if x > 0 {
      CountColumns(t, grid, x - 1);
      CountColumnsStep(t, grid, x);
    }
  }

  /** Three slots per pixel of x columns of height h. */
  function Capacity(x: nat, h: nat): (n: nat)
  {
    if x == 0 then 0 else Capacity(x - 1, h) + 3 * h
  }

  lemma {:induction false} CapacityIsProduct(x: nat, h: nat)
    ensures Capacity(x, h) == 3 * (x * h)
  {
    if x > 0 {
      CapacityIsProduct(x - 1, h);
      assert 3 * ((x - 1) * h) + 3 * h == 3 * (x * h);
    }
  }

  lemma {:induction false} CountUnassigned(t: Table)
    requires forall u, ch :: 0 <= u < |t| && 0 <= ch < |t[u]| ==> t[u][ch] == Unassigned
    ensures Count(t) == 0
    decreases |t|
  {
    if t != [] {
      var n := |t|;
      CountUnassigned(t[..n - 1]);
      CountRowUnassigned(t[n - 1]);
    }
  }

  lemma {:induction false} CountRowUnassigned(row: seq<int>)
    requires forall ch :: 0 <= ch < |row| ==> row[ch] == Unassigned
    ensures CountRow(row) == 0
    decreases |row|
  {
    if row != [] {
      CountRowUnassigned(row[..|row| - 1]);
    }
  }

  /** The compiled table assigns at most one slot per byte of the colour buffer:
      at most 3 * width * height slots in all. */
  lemma CompileCountBound(channels: seq<nat>, grid: seq<seq<Patch>>)
    requires WellFormed(channels, grid)
    ensures Count(Compile(channels, grid)) <= 3 * (|grid| * |grid[0]|)
  {
    CountUnassigned(Blank(channels));
    CountColumns(Blank(channels), grid, |grid|);
    CapacityIsProduct(|grid|, |grid[0]|);
  }
}
