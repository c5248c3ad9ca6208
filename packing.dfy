/** One frame as bytes: the row-major pixel buffer filled from the frame's colours,
    and the packed frame read out of it in universe order, then channel order,
    through the patch map. */
module Packing {
  import opened Topology

  /** One pixel colour as the renderer delivers it. */
  datatype Rgb = Rgb(red: int, green: int, blue: int)

  /** Component c (0 red, 1 green, 2 blue) of a colour. */
  function Component(p: Rgb, c: int): (v: int)
  {
    if c == 0 then p.red else if c == 1 then p.green else p.blue
  }

  /** An unsigned byte, as written to the capture file. */
  newtype Byte = v: int | 0 <= v < 256

  /** The byte kept by a narrowing cast of v to a byte: its low eight bits, read
      unsigned. */
  function Low8(v: int): (b: Byte)
    ensures (v - b as int) % 256 == 0
    ensures 0 <= v < 256 ==> b as int == v
  {
    (v % 256) as Byte
  }

  /** The pixel buffer for the first n pixels of a frame: pixel i occupies bytes
      3 * i, 3 * i + 1 and 3 * i + 2, holding its red, green and blue. */
  function PixelBytes(frame: seq<Rgb>, n: nat): (b: seq<Byte>)
    requires n <= |frame|
    ensures |b| == 3 * n
    ensures forall i, c :: 0 <= i < n && 0 <= c < 3 ==> b[3 * i + c] == Low8(Component(frame[i], c))
  {
    seq(3 * n, k requires 0 <= k < 3 * n => Low8(Component(frame[k / 3], k % 3)))
  }

  /** The bytes one universe contributes: for each assigned slot, in channel order,
      the buffer byte it names. */
  function PackRow(row: seq<int>, buf: seq<Byte>): (r: seq<Byte>)
    requires RowBelow(row, |buf|)
    ensures |r| == CountRow(row)
  {
    if row == [] then []
    else
      var last := row[|row| - 1];
      PackRow(row[..|row| - 1], buf) + (if last == Unassigned then [] else [buf[last]])
  }

  /** The packed frame: the contributions of the universes in universe order. */
  function Pack(t: Table, buf: seq<Byte>): (r: seq<Byte>)
    requires Below(t, |buf|)
    ensures |r| == Count(t)
  {
    if t == [] then []
    else Pack(t[..|t| - 1], buf) + PackRow(t[|t| - 1], buf)
  }

  /** Extending a universe by one slot adds that slot's byte when it is assigned. */
  lemma PackRowStep(row: seq<int>, buf: seq<Byte>, k: int)
    requires RowBelow(row, |buf|) && 0 <= k < |row|
    ensures row[k] == Unassigned ==>
              CountRow(row[..k + 1]) == CountRow(row[..k]) && PackRow(row[..k + 1], buf) == PackRow(row[..k], buf)
    ensures row[k] != Unassigned ==>
              CountRow(row[..k + 1]) == CountRow(row[..k]) + 1 && PackRow(row[..k + 1], buf) == PackRow(row[..k], buf) + [buf[row[k]]]
  {
    assert row[..k + 1][..k] == row[..k];
  }

  /** Every prefix of a table whose offsets lie below n has them below n too. */
  lemma BelowPrefix(t: Table, n: int, k: int)
    requires Below(t, n) && 0 <= k <= |t|
    ensures Below(t[..k], n)
  {
    forall u | 0 <= u < k
      ensures RowBelow(t[..k][u], n)
    {
      assert t[..k][u] == t[u];
    }
  }

  /** Extending the table by one universe appends that universe's bytes. */
  lemma PackStep(t: Table, buf: seq<Byte>, u: int)
    requires Below(t, |buf|) && 0 <= u < |t|
    requires Below(t[..u], |buf|) && Below(t[..u + 1], |buf|)
    ensures Count(t[..u + 1]) == Count(t[..u]) + CountRow(t[u])
    ensures Pack(t[..u + 1], buf) == Pack(t[..u], buf) + PackRow(t[u], buf)
  {
    assert t[..u + 1][..u] == t[..u];
  }

  /** Within a universe, assigned slot ch is packed at its rank among the assigned slots. */
  lemma {:induction false} PackRowAt(row: seq<int>, buf: seq<Byte>, ch: int)
    requires RowBelow(row, |buf|)
    requires 0 <= ch < |row| && row[ch] != Unassigned
    ensures CountRow(row[..ch]) < |PackRow(row, buf)|
    ensures PackRow(row, buf)[CountRow(row[..ch])] == buf[row[ch]]
    decreases |row|
  {
    var n := |row|;
    var front := row[..n - 1];
    if ch == n - 1 {
      assert row[..ch] == front;
    } else {
      assert front[..ch] == row[..ch];
      PackRowAt(front, buf, ch);
    }
  }

  /** Closed form of the packed frame: the byte at position Slot(t, u, ch) is the
      buffer byte that assigned slot ch of universe u names. */
  lemma {:induction false} PackAt(t: Table, buf: seq<Byte>, u: int, ch: int)
    requires Below(t, |buf|)
    requires 0 <= u < |t| && 0 <= ch < |t[u]| && t[u][ch] != Unassigned
    ensures Slot(t, u, ch) < |Pack(t, buf)|
    ensures Pack(t, buf)[Slot(t, u, ch)] == buf[t[u][ch]]
    decreases |t|
  {
    var n := |t|;
    var front := t[..n - 1];
    PackRowAt(t[u], buf, ch);
    if u == n - 1 {
      assert t[..u] == front;
    } else {
      assert front[..u] == t[..u];
      assert front[u] == t[u];
      PackAt(front, buf, u, ch);
    }
  }

  /** Every byte of the packed universe comes from an assigned slot. */
  lemma {:induction false} PackRowSource(row: seq<int>, k: int) returns (ch: int)
    requires 0 <= k < CountRow(row)
    ensures 0 <= ch < |row| && row[ch] != Unassigned
    ensures CountRow(row[..ch]) == k
    decreases |row|
  {
    var n := |row|;
    var front := row[..n - 1];
    if k < CountRow(front) {
      ch := PackRowSource(front, k);
      assert front[..ch] == row[..ch];
    } else {
      ch := n - 1;
      assert row[..ch] == front;
    }
  }

  /** Every byte of the packed frame comes from an assigned slot, so packing emits
      nothing for Unassigned slots. */
  lemma {:induction false} PackSource(t: Table, buf: seq<Byte>, k: int) returns (u: int, ch: int)
    requires Below(t, |buf|)
    requires 0 <= k < |Pack(t, buf)|
    ensures 0 <= u < |t| && 0 <= ch < |t[u]| && t[u][ch] != Unassigned
    ensures Slot(t, u, ch) == k
    ensures Pack(t, buf)[k] == buf[t[u][ch]]
    decreases |t|
  {
    var n := |t|;
    var front := t[..n - 1];
    if k < Count(front) {
      u, ch := PackSource(front, buf, k);
      assert front[..u] == t[..u];
      assert front[u] == t[u];
    } else {
      u := n - 1;
      ch := PackRowSource(t[u], k - Count(front));
      assert t[..u] == front;
    }
    PackAt(t, buf, u, ch);
  }

  /** Slots are packed in universe order, then channel order. */
  lemma SlotOrder(t: Table, u: int, ch: int, u': int, ch': int)
    requires 0 <= u < |t| && 0 <= ch < |t[u]| && t[u][ch] != Unassigned
    requires 0 <= u' < |t| && 0 <= ch' <= |t[u']|
    requires u < u' || (u == u' && ch < ch')
    ensures Slot(t, u, ch) < Slot(t, u', ch')
  {
    if u == u' {
      var row := t[u];
      assert row[..ch'][..ch + 1] == row[..ch + 1];
      assert row[..ch + 1][..ch] == row[..ch];
      CountRowPrefix(row[..ch'], ch + 1);
    } else {
      var upto := t[..u + 1];
      assert upto[..u] == t[..u];
      assert upto[u] == t[u];
      SlotBound(upto, u, ch);
      assert upto[..u + 1] == upto;
      assert t[..u'][..u + 1] == upto;
      CountPrefix(t[..u'], u + 1);
    }
  }

  /** A slot holding the offset of byte c of pixel i carries, once packed, the low
      byte of that component of that pixel at the slot's position. */
  lemma PackedByte(t: Table, frame: seq<Rgb>, n: nat, u: int, ch: int, i: int, c: int)
    requires n <= |frame| && Below(t, 3 * n)
    requires 0 <= u < |t| && 0 <= ch < |t[u]|
    requires 0 <= i < n && 0 <= c < 3 && t[u][ch] == 3 * i + c
    ensures var buf := PixelBytes(frame, n);
            && Slot(t, u, ch) < |Pack(t, buf)|
            && Pack(t, buf)[Slot(t, u, ch)] == Low8(Component(frame[i], c))
  {
    PackAt(t, PixelBytes(frame, n), u, ch);
  }

  /** The whole pipeline for one channel: when component c of pixel (x, y) is the
      last to name slot ch of universe u, the packed frame carries the low byte of
      that component of that pixel at the slot's position. */
  lemma PackedChannel(channels: seq<nat>, grid: seq<seq<Patch>>, frame: seq<Rgb>, x: int, y: int, c: int, u: int, ch: int)
    requires WellFormed(channels, grid)
    requires Area(grid) <= |frame|
    requires Names(grid, x, y, c, u, ch)
    requires forall x', y', c' :: Later(x', y', c', x, y, c) ==> !Names(grid, x', y', c', u, ch)
    ensures 0 <= u < |channels| && 0 <= ch < channels[u]
    ensures 0 <= y * |grid| + x < |frame|
    ensures var t := Compile(channels, grid);
            var buf := PixelBytes(frame, Area(grid));
            && Below(t, |buf|)
            && Slot(t, u, ch) < |Pack(t, buf)|
            && Pack(t, buf)[Slot(t, u, ch)] == Low8(Component(frame[y * |grid| + x], c))
  {
    CompileLastWins(channels, grid, x, y, c, u, ch);
    PixelIndex(|grid|, |grid[0]|, x, y);
    CompileInRange(channels, grid);
    PackedByte(Compile(channels, grid), frame, Area(grid), u, ch, y * |grid| + x, c);
  }

  // ---------------------------------------------------------------------------
  // A worked example: two universes of six and two channels and a grid two pixels
  // wide and one high, whose pixels feed channels 0 .. 2 and 3 .. 5 of universe 0.

  const ExampleGrid: seq<seq<Patch>> := [[Patch(0, 0, 1, 2)], [Patch(0, 3, 4, 5)]]
  const ExampleFrame: seq<Rgb> := [Rgb(10, 20, 30), Rgb(40, 50, 60)]

  lemma ExampleBlank()
    ensures Blank([6, 2]) == [[-1, -1, -1, -1, -1, -1], [-1, -1]]
  {
    var blank := Blank([6, 2]);
    assert |blank| == 2 && |blank[0]| == 6 && |blank[1]| == 2;
    assert blank[0] == [-1, -1, -1, -1, -1, -1];
    assert blank[1] == [-1, -1];
  }

  /** Pixel (0, 0) fills channels 0 .. 2 of universe 0 with offsets 0 .. 2. */
  lemma ExampleFirstPixel()
    ensures PatchPixel([[-1, -1, -1, -1, -1, -1], [-1, -1]], ExampleGrid, 0, 0)
            == [[0, 1, 2, -1, -1, -1], [-1, -1]]
  {
    var t0: Table := [[-1, -1, -1, -1, -1, -1], [-1, -1]];
    assert t0[0][0 := 0][1 := 1][2 := 2] == [0, 1, 2, -1, -1, -1];
  }

  /** Pixel (1, 0) fills channels 3 .. 5 of universe 0 with offsets 3 .. 5. */
  lemma ExampleSecondPixel()
    ensures PatchPixel([[0, 1, 2, -1, -1, -1], [-1, -1]], ExampleGrid, 1, 0)
            == [[0, 1, 2, 3, 4, 5], [-1, -1]]
  {
    var t1: Table := [[0, 1, 2, -1, -1, -1], [-1, -1]];
    assert t1[0][3 := 3][4 := 4][5 := 5] == [0, 1, 2, 3, 4, 5];
  }

  /** The compiled map sends channel k of universe 0 to byte k and leaves universe 1
      Unassigned. */
  lemma ExampleCompile()
    ensures Compile([6, 2], ExampleGrid) == [[0, 1, 2, 3, 4, 5], [-1, -1]]
  {
    ExampleBlank();
    ExampleFirstPixel();
    ExampleSecondPixel();
    var t0: Table := [[-1, -1, -1, -1, -1, -1], [-1, -1]];
    assert PatchColumns(t0, ExampleGrid, 1) == [[0, 1, 2, -1, -1, -1], [-1, -1]];
  }

  /** The pixel buffer of a two-pixel frame: the first colour's bytes, then the second's. */
  lemma TwoPixelBytes(p: Rgb, q: Rgb)
    ensures PixelBytes([p, q], 2)
            == [Low8(p.red), Low8(p.green), Low8(p.blue), Low8(q.red), Low8(q.green), Low8(q.blue)]
  {
    var buf := PixelBytes([p, q], 2);
    var want := [Low8(p.red), Low8(p.green), Low8(p.blue), Low8(q.red), Low8(q.green), Low8(q.blue)];
    forall k | 0 <= k < 6
      ensures buf[k] == want[k]
    {
      assert buf[3 * (k / 3) + k % 3] == Low8(Component([p, q][k / 3], k % 3));
    }
  }

  /** The pixel buffer of the example frame: its colours, red, green, blue, in pixel order. */
  lemma ExampleBytes()
    ensures PixelBytes(ExampleFrame, 2) == [10, 20, 30, 40, 50, 60]
  {
    TwoPixelBytes(Rgb(10, 20, 30), Rgb(40, 50, 60));
    assert Low8(10) == 10 && Low8(20) == 20 && Low8(30) == 30;
    assert Low8(40) == 40 && Low8(50) == 50 && Low8(60) == 60;
  }

  /** The packed frame is the six colour bytes in pixel order; universe 1 adds nothing. */
  lemma ExamplePack()
    ensures var t := [[0, 1, 2, 3, 4, 5], [-1, -1]];
            && Below(t, 6)
            && Pack(t, [10, 20, 30, 40, 50, 60]) == [10, 20, 30, 40, 50, 60]
  {
    var t: Table := [[0, 1, 2, 3, 4, 5], [-1, -1]];
    var buf: seq<Byte> := [10, 20, 30, 40, 50, 60];
    PackRowOfRun(buf, 6);
    assert seq(6, i => i) == t[0];
    assert t[..1] == [t[0]] && [t[0]][..0] == [];
    assert t[1][..1] == [-1] && [-1][..0] == [];
  }

  /** The example end to end: compiled, filled and packed. */
  lemma ExampleFrameRecord()
    ensures var t := Compile([6, 2], ExampleGrid);
            var buf := PixelBytes(ExampleFrame, 2);
            && Below(t, |buf|)
            && Pack(t, buf) == [10, 20, 30, 40, 50, 60]
  {
    ExampleCompile();
    ExampleBytes();
    ExamplePack();
  }

  /** The slots 0 .. n - 1, in order, pack the first n buffer bytes. */
  lemma {:induction false} PackRowOfRun(buf: seq<Byte>, n: nat)
    requires n <= |buf|
    ensures RowBelow(seq(n, i => i), |buf|)
    ensures PackRow(seq(n, i => i), buf) == buf[..n]
  {
    if n > 0 {
      PackRowOfRun(buf, n - 1);
      assert seq(n, i => i)[..n - 1] == seq(n - 1, i => i);
      assert buf[..n] == buf[..n - 1] + [buf[n - 1]];
    }
  }
}
