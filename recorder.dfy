/** The capture recorder: the state kept between calls and the operations a host
    calls on it. Configuration compiles the patch map and sizes the two byte
    buffers; start creates a capture file and writes its two-byte header; every
    frame delivered while recording is packed and appended; stop ends recording.

    The directory of capture files is a map from file name to contents. No method
    removes a file or changes bytes already written: files only grow at the end. */
module Recorder {
  import opened Topology
  import opened Packing

  datatype Option<T> = None | Some(value: T)

  /** Why a file operation did not complete. */
  datatype Failure =
    | NoPath      // no capture was ever started, so there is no file to name
    | FileExists  // the file to create is already in the directory
    | NoSuchFile  // the file to append to is not in the directory
    | IoError     // any other failure of the file system

  datatype Result<T> = Ok(value: T) | Err(failure: Failure)

  /** What became of a delivered frame. */
  datatype FrameOutcome =
    | Ignored                   // not recording
    | Dropped                   // the frame does not fit the configured grid
    | Written                   // its record was appended to the capture file
    | Failed(failure: Failure)  // the append did not happen

  /** Capture files by name. */
  type Directory = map<string, seq<Byte>>

  /** Every file of `before` is still in `after` and still begins with its old bytes. */
  ghost predicate AppendOnly(before: Directory, after: Directory)
  {
    forall name :: name in before ==> name in after && before[name] <= after[name]
  }

  /** The header of a capture file: the grid width, then its height, each cut to a byte. */
  function Header(width: int, height: int): (h: seq<Byte>)
    ensures |h| == 2
    ensures h[0] as int == width % 256 && h[1] as int == height % 256
  {
    [Low8(width), Low8(height)]
  }

  /** The bytes one recorded frame adds to the capture file: the whole output buffer,
      that is the packed frame followed by the output bytes no slot ever writes. */
  function FrameRecord(t: Table, buf: seq<Byte>, size: nat): (r: seq<Byte>)
    requires Below(t, |buf|) && Count(t) <= size
    ensures |r| == size
  {
    Pack(t, buf) + seq(size - Count(t), _ => 0)
  }

  /** The frame guard as the source writes it: skip the frame when the grid is empty
      or has more pixels than three times the number of colours delivered. */
  predicate SkippedAsWritten(width: int, height: int, frameLength: int): (skip: bool)
    ensures 0 < width * height <= frameLength ==> !skip
  {
    width * height <= 0 || width * height > frameLength * 3
  }

  /** The frame guard as intended: the grid is not empty and the frame holds a colour
      for every pixel of it. */
  predicate FrameFits(width: int, height: int, frameLength: int): (fits: bool)
    ensures fits ==> !SkippedAsWritten(width, height, frameLength)
  {
    0 < width * height <= frameLength
  }

  /** The source's guard lets a 2 x 1 grid through with a frame of one colour, and the
      buffer fill then reads the colour of pixel 1, past the end of the frame. */
  lemma AsWrittenGuardAdmitsShortFrame()
    ensures !SkippedAsWritten(2, 1, 1)
    ensures !FrameFits(2, 1, 1)
  {
  }

  /** The intended guard accepts exactly the frames the source's guard accepts that
      hold a colour for every pixel. */
  lemma FrameFitsNarrowsGuard(width: int, height: int, frameLength: nat)
    ensures FrameFits(width, height, frameLength) <==>
            !SkippedAsWritten(width, height, frameLength) && width * height <= frameLength
  {
  }

  /** Under the intended guard, every pixel the buffer fill visits has a colour. */
  lemma FrameFitsCoversPixels(width: nat, height: nat, frameLength: int, x: int, y: int)
    requires FrameFits(width, height, frameLength)
    requires 0 <= x < width && 0 <= y < height
    ensures 0 <= y * width + x < frameLength
  {
    PixelIndex(width, height, x, y);
  }

  lemma PositiveSides(width: int, height: int)
    requires 0 <= width && 0 <= height && 0 < width * height
    ensures 0 < width && 0 < height
  {
  }

  /** The channel slots of every universe, all Unassigned, with the channel counts
      they were sized from. */
  method BlankTable(universes: seq<nat>) returns (pm: Table, dl: seq<nat>)
    ensures pm == Blank(universes) && dl == universes
  {
    var n := |universes|;
    pm := seq(n, _ => [0]);
    dl := seq(n, _ => 0);
    for i := 0 to n
      invariant |pm| == n && |dl| == n
      invariant forall k :: 0 <= k < i ==> dl[k] == universes[k] && pm[k] == Blank(universes)[k]
    {
      dl := dl[i := universes[i]];
      var row := new int[dl[i]];
      for j := 0 to dl[i]
        invariant forall k :: 0 <= k < j ==> row[k] == Unassigned
      {
        row[j] := Unassigned;
      }
      pm := pm[i := row[..]];
    }
  }

  /** Visit the pixels, x in the outer loop and y in the inner loop, writing the
      offsets of each pixel's bytes into its channel slots. */
  method PatchPixels(universes: seq<nat>, grid: seq<seq<Patch>>, blank: Table) returns (pm: Table)
    requires WellFormed(universes, grid) && Shaped(blank, universes)
    ensures pm == PatchColumns(blank, grid, |grid|)
  {
    pm := blank;
    for x := 0 to |grid|
      invariant pm == PatchColumns(blank, grid, x) && Shaped(pm, universes)
    {
      pm := PatchColumnPixels(universes, grid, pm, x);
    }
  }

  /** The inner loop of the walk above: the pixels of column x, top to bottom. */
  method PatchColumnPixels(universes: seq<nat>, grid: seq<seq<Patch>>, before: Table, x: int) returns (pm: Table)
    requires WellFormed(universes, grid) && Shaped(before, universes) && 0 <= x < |grid|
    ensures pm == PatchColumn(before, grid, x, Height(grid)) && Shaped(pm, universes)
  {
    pm := before;
    for y := 0 to |grid[0]|
      invariant pm == PatchColumn(before, grid, x, y) && Shaped(pm, universes)
    {
      pm := WritePixel(universes, grid, pm, x, y);
    }
  }

  /** Write the offsets of the red, green and blue bytes of pixel (x, y) into the
      slots it is wired to, in that order. */
  method WritePixel(universes: seq<nat>, grid: seq<seq<Patch>>, before: Table, x: int, y: int) returns (pm: Table)
    requires WellFormed(universes, grid) && Shaped(before, universes)
    requires 0 <= x < |grid| && 0 <= y < |grid[0]|
    ensures pm == PatchPixel(before, grid, x, y) && Shaped(pm, universes)
  {
    var w := |grid|;
    var p := grid[x][y];
    assert Fits(universes, p);
    pm := before;
    pm := pm[p.universe := pm[p.universe][p.red := (y * w + x) * 3 + 0]];
    pm := pm[p.universe := pm[p.universe][p.green := (y * w + x) * 3 + 1]];
    pm := pm[p.universe := pm[p.universe][p.blue := (y * w + x) * 3 + 2]];
  }

  /** Compile the patch map of a configuration: blank slots sized from the channel
      counts, then the offsets of every pixel written in visiting order. */
  method CompilePatchMap(universes: seq<nat>, grid: seq<seq<Patch>>) returns (pm: Table, dl: seq<nat>)
    requires WellFormed(universes, grid)
    ensures pm == Compile(universes, grid) && dl == universes
    ensures Below(pm, 3 * (|grid| * |grid[0]|)) && Count(pm) <= 3 * (|grid| * |grid[0]|)
  {
    pm, dl := BlankTable(universes);
    pm := PatchPixels(universes, grid, pm);
    CompileInRange(universes, grid);
    CompileCountBound(universes, grid);
  }

  /** A fresh buffer of `size` zero bytes. */
  method Zeroed(size: nat) returns (a: array<Byte>)
    ensures fresh(a) && a.Length == size
    ensures forall k :: 0 <= k < size ==> a[k] == 0
  {
    a := new Byte[size](_ => 0);
  }

  /** Byte k of the pixel buffer belongs to a pixel the fill visits before pixel
      (x, y): a column left of x, or a row above y in column x. */
  predicate Visited(width: int, x: int, y: int, k: int)
  {
    0 < width && ((k / 3) % width < x || ((k / 3) % width == x && (k / 3) / width < y))
  }

  /** Every byte of the buffer that the fill has visited before pixel (x, y) holds
      its colour component from the frame. */
  predicate FilledUpTo(b: seq<Byte>, frame: seq<Rgb>, width: int, x: int, y: int)
  {
    forall k :: 0 <= k < |b| && k / 3 < |frame| && Visited(width, x, y, k) ==>
      b[k] == Low8(Component(frame[k / 3], k % 3))
  }

  /** Before the first pixel, no byte has been visited. */
  lemma NoneVisited(width: int, k: int)
    requires 0 <= k
    ensures !Visited(width, 0, 0, k)
  {
    if 0 < width {
      var i := k / 3;
      assert 0 <= i;
      assert i / width >= 0;
    }
  }

  lemma FillStart(b: seq<Byte>, frame: seq<Rgb>, width: int)
    ensures FilledUpTo(b, frame, width, 0, 0)
  {
    forall k | 0 <= k < |b| {
      NoneVisited(width, k);
    }
  }

  /** Visiting pixel (x, y) adds exactly the bytes of pixel y * width + x. */
  lemma VisitStep(width: int, height: int, x: int, y: int, k: int)
    requires 0 <= x < width && 0 <= y < height && 0 <= k
    ensures Visited(width, x, y + 1, k) <==> Visited(width, x, y, k) || k / 3 == y * width + x
  {
    var i := k / 3;
    if i == y * width + x {
      PixelIndex(width, height, x, y);
    }
    if i % width == x && i / width == y {
      assert i == (i / width) * width + i % width;
    }
  }

  /** Writing the colour of pixel (x, y) at its bytes extends the filled part by
      that pixel. */
  lemma FillStep(before: seq<Byte>, after: seq<Byte>, frame: seq<Rgb>, width: int, height: int, x: int, y: int)
    requires 0 <= x < width && 0 <= y < height && y * width + x < |frame|
    requires 3 * (y * width + x) + 3 <= |before|
    requires FilledUpTo(before, frame, width, x, y)
    requires var s := 3 * (y * width + x);
             var p := frame[y * width + x];
             after == before[s := Low8(p.red)][s + 1 := Low8(p.green)][s + 2 := Low8(p.blue)]
    ensures FilledUpTo(after, frame, width, x, y + 1)
  {
    var index := y * width + x;
    forall k | 0 <= k < |after| && k / 3 < |frame| && Visited(width, x, y + 1, k)
      ensures after[k] == Low8(Component(frame[k / 3], k % 3))
    {
      VisitStep(width, height, x, y, k);
      if k / 3 == index {
        assert k == 3 * index + k % 3;
      } else {
        assert !(3 * index <= k < 3 * index + 3);
      }
    }
  }

  /** After the last row of column x, the fill has visited the same bytes as before
      the first row of column x + 1. */
  lemma ColumnStep(width: int, height: int, x: int, k: int)
    requires 0 <= x < width && 0 <= k < 3 * (width * height)
    ensures Visited(width, x, height, k) <==> Visited(width, x + 1, 0, k)
  {
    var i := k / 3;
    var q := i / width;
    assert i == q * width + i % width;
    if q > height {
      RowStart(width, height, q);
    }
  }

  lemma FillColumn(b: seq<Byte>, frame: seq<Rgb>, width: int, height: int, x: int)
    requires 0 <= x < width && |b| == 3 * (width * height)
    requires FilledUpTo(b, frame, width, x, height)
    ensures FilledUpTo(b, frame, width, x + 1, 0)
  {
    forall k | 0 <= k < |b| {
      ColumnStep(width, height, x, k);
    }
  }

  /** Once every column is visited, the buffer is the frame's pixel bytes. */
  lemma FillDone(b: seq<Byte>, frame: seq<Rgb>, width: int, height: int)
    requires 0 < width && 0 <= height && width * height <= |frame|
    requires |b| == 3 * (width * height)
    requires FilledUpTo(b, frame, width, width, 0)
    ensures b == PixelBytes(frame, width * height)
  {
    var want := PixelBytes(frame, width * height);
    forall k | 0 <= k < |b|
      ensures b[k] == want[k]
    {
      assert Visited(width, width, 0, k);
    }
  }

  /** Write the three bytes of one colour, red first, from position start. */
  method WriteColour(buf: array<Byte>, start: int, p: Rgb)
    requires 0 <= start && start + 3 <= buf.Length
    modifies buf
    ensures buf[..] == old(buf[..])[start := Low8(p.red)][start + 1 := Low8(p.green)][start + 2 := Low8(p.blue)]
  {
    buf[start + 0] := Low8(p.red);
    buf[start + 1] := Low8(p.green);
    buf[start + 2] := Low8(p.blue);
  }

  /** Fill the pixel buffer from the frame, x in the outer loop and y in the inner
      loop: pixel (x, y) is colour y * width + x of the frame. */
  method FillPixels(buf: array<Byte>, frame: seq<Rgb>, width: int, height: int)
    requires 0 <= width && 0 <= height && FrameFits(width, height, |frame|)
    requires buf.Length == 3 * (width * height)
    modifies buf
    ensures buf[..] == PixelBytes(frame, width * height)
  {
    PositiveSides(width, height);
    FillStart(buf[..], frame, width);
    for x := 0 to width
      invariant FilledUpTo(buf[..], frame, width, x, 0)
    {
      for y := 0 to height
        invariant FilledUpTo(buf[..], frame, width, x, y)
      {
        var index := y * width + x;
        PixelIndex(width, height, x, y);
        ghost var before := buf[..];
        WriteColour(buf, 3 * index, frame[index]);
        FillStep(before, buf[..], frame, width, height, x, y);
      }
      FillColumn(buf[..], frame, width, height, x);
    }
    FillDone(buf[..], frame, width, height);
  }

  /** Writing v just past a run a placed at position at of o extends the run. */
  lemma WriteAfterRun(o: seq<Byte>, at: int, a: seq<Byte>, n: int, v: Byte, a': seq<Byte>, n': int, s: seq<Byte>)
    requires 0 <= at && |a| == n && at + n < |o|
    requires a' == a + [v] && n' == n + 1
    requires s == o[..at] + a + o[at + n..]
    ensures s[at + n := v] == o[..at] + a' + o[at + n'..]
  {
    var s' := o[..at] + a' + o[at + n'..];
    assert |s[at + n := v]| == |s'|;
    forall k | 0 <= k < |s'|
      ensures s[at + n := v][k] == s'[k]
    {
      if k < at {
      } else if k < at + n {
      } else if k == at + n {
      } else {
        assert s'[k] == o[k];
      }
    }
  }

  /** Placing run r at position |p| of p followed by the rest of o from |p| gives p,
      then r, then the rest of o after r. */
  lemma PlaceRun(p: seq<Byte>, o: seq<Byte>, r: seq<Byte>)
    requires |p| + |r| <= |o|
    ensures (p + o[|p|..])[..|p|] + r + (p + o[|p|..])[|p| + |r|..] == (p + r) + o[|p| + |r|..]
  {
    var m := p + o[|p|..];
    assert m[..|p|] == p;
    assert m[|p| + |r|..] == o[|p| + |r|..];
  }

  /** Universe u of t fits in the output just past the bytes of t[..u]. */
  lemma UniverseFits(t: Table, buf: seq<Byte>, u: int)
    requires Below(t, |buf|) && 0 <= u < |t|
    ensures Below(t[..u + 1], |buf|)
    ensures Count(t[..u]) + CountRow(t[u]) <= Count(t)
  {
    BelowPrefix(t, |buf|, u + 1);
    BelowPrefix(t, |buf|, u);
    PackStep(t, buf, u);
    CountPrefix(t, u + 1);
  }

  /** A step of the universe loop below: placing the bytes of universe u just
      past those of t[..u] gives the bytes of t[..u + 1], which still fit. */
  lemma FrameStep(t: Table, buf: seq<Byte>, before: seq<Byte>, u: int, current: seq<Byte>, next: seq<Byte>)
    requires Below(t, |buf|) && 0 <= u < |t| && Count(t) <= |before|
    requires Below(t[..u], |buf|) && Below(t[..u + 1], |buf|)
    requires Count(t[..u]) + CountRow(t[u]) <= |before|
    requires current == Pack(t[..u], buf) + before[Count(t[..u])..]
    requires next == current[..Count(t[..u])] + PackRow(t[u], buf) + current[Count(t[..u]) + CountRow(t[u])..]
    ensures Count(t[..u + 1]) == Count(t[..u]) + CountRow(t[u]) <= Count(t)
    ensures next == Pack(t[..u + 1], buf) + before[Count(t[..u + 1])..]
  {
    PackStep(t, buf, u);
    CountPrefix(t, u + 1);
    var p, r := Pack(t[..u], buf), PackRow(t[u], buf);
    assert |p| == Count(t[..u]) && |r| == CountRow(t[u]);
    PlaceRun(p, before, r);
    assert next == (p + r) + before[|p| + |r|..];
  }

  /** Room for one more byte: an assigned slot k lies inside the row's count. */
  lemma CountRowStep(row: seq<int>, k: int)
    requires 0 <= k < |row| && row[k] != Unassigned
    ensures CountRow(row[..k]) < CountRow(row)
  {
    assert row[..k + 1][..k] == row[..k];
    CountRowPrefix(row, k + 1);
  }

  /** Copy the pixel byte each assigned slot of one universe names, in channel
      order, to the output from position offset on; answers how many were copied. */
  method PackUniverse(row: seq<int>, channels: nat, buf: seq<Byte>, out: array<Byte>, offset: int) returns (count: int)
    requires |row| == channels
    requires RowBelow(row, |buf|)
    requires 0 <= offset && offset + CountRow(row) <= out.Length
    modifies out
    ensures count == CountRow(row)
    ensures out[..] == old(out[..])[..offset] + PackRow(row, buf) + old(out[..])[offset + count..]
  {
    ghost var before := out[..];
    ghost var packed: seq<Byte> := [];
    count := 0;
    for channel := 0 to channels
      invariant count == CountRow(row[..channel]) && offset + count <= out.Length
      invariant packed == PackRow(row[..channel], buf)
      invariant out[..] == before[..offset] + packed + before[offset + count..]
    {
      PackRowStep(row, buf, channel);
      var position := row[channel];
      if position != Unassigned {
        CountRowStep(row, channel);
        ghost var current := out[..];
        WriteAfterRun(before, offset, packed, count, buf[position], packed + [buf[position]], count + 1, current);
        out[offset + count] := buf[position];
        assert out[..] == current[offset + count := buf[position]];
        count := count + 1;
        packed := packed + [buf[position]];
      }
    }
    assert row[..channels] == row;
  }

  /** Walk the universes in order, packing each one's assigned slots after the
      previous ones; answers how many bytes were written. */
  method PackFrame(t: Table, channels: seq<nat>, buf: seq<Byte>, out: array<Byte>) returns (total: int)
    requires Shaped(t, channels)
    requires Below(t, |buf|) && Count(t) <= out.Length
    modifies out
    ensures total == Count(t)
    ensures out[..] == Pack(t, buf) + old(out[..])[total..]
  {
    ghost var before := out[..];
    var offset := 0;
    for uni := 0 to |channels|
      invariant offset == Count(t[..uni]) && offset <= Count(t)
      invariant Below(t[..uni], |buf|)
      invariant out[..] == Pack(t[..uni], buf) + before[offset..]
    {
      ghost var current := out[..];
      UniverseFits(t, buf, uni);
      var count := PackUniverse(t[uni], channels[uni], buf, out, offset);
      FrameStep(t, buf, before, uni, current, out[..]);
      offset := offset + count;
    }
    assert t[..|t|] == t;
    total := offset;
  }

  /** Packing over an output buffer that is zero past the packed bytes leaves the
      frame record, still zero past the packed bytes. */
  lemma RecordTail(t: Table, buf: seq<Byte>, before: seq<Byte>, after: seq<Byte>)
    requires Below(t, |buf|) && Count(t) <= |before|
    requires forall k :: Count(t) <= k < |before| ==> before[k] == 0
    requires after == Pack(t, buf) + before[Count(t)..]
    ensures after == FrameRecord(t, buf, |before|)
    ensures forall k :: Count(t) <= k < |after| ==> after[k] == 0
  {
    assert before[Count(t)..] == seq(|before| - Count(t), _ => 0);
  }

  /** How a configuration fits together: a w by h grid, a patch map with a slot per
      channel of each universe whose offsets name bytes of a pixel buffer of
      bufferSize bytes, and whose assigned slots fit in an output buffer of
      outputSize bytes; both buffers hold 3 * w * h bytes. */
  predicate Layout(w: int, h: int, dl: seq<nat>, pm: Table, bufferSize: int, outputSize: int)
  {
    && 0 <= w && 0 <= h
    && Shaped(pm, dl)
    && bufferSize == 3 * (w * h) && outputSize == 3 * (w * h)
    && Below(pm, bufferSize) && Count(pm) <= outputSize
  }

  class ArtNetOutputAspect {
    var socketOpen: bool
    var path: Option<string>
    var files: Directory
    var sizeX: int
    var sizeY: int
    var numUnis: int
    var dataLength: seq<nat>
    var patchMap: Table
    var buffer: array<Byte>
    var output: array<Byte>

    /** The recorder's invariant: the patch map has a slot per channel of each
        universe, every slot names a byte of the pixel buffer, and the assigned
        slots fit in the output buffer, whose bytes past them are zero. */
    ghost predicate Valid()
      reads this, output
    {
      && numUnis == |dataLength|
      && Layout(sizeX, sizeY, dataLength, patchMap, buffer.Length, output.Length)
      && buffer != output
      && forall k :: Count(patchMap) <= k < output.Length ==> output[k] == 0
    }

    /** A recorder that is not recording, not configured (an empty grid and no
        universes) and has never created a file, over the given directory. */
    constructor (directory: Directory)
      ensures Valid()
      ensures !socketOpen && path == None && files == directory
      ensures sizeX == 0 && sizeY == 0 && numUnis == 0 && patchMap == []
    {
      socketOpen := false;
      path := None;
      files := directory;
      sizeX, sizeY, numUnis := 0, 0, 0;
      dataLength, patchMap := [], [];
      buffer := new Byte[0];
      output := new Byte[0];
    }

    /** Configuration: universe u has `universes[u]` channels and `grid[x][y]` wires
        pixel (x, y). Compiles the patch map and allocates the zeroed pixel and output
        buffers of 3 * width * height bytes each. */
    method SetParameters(universes: seq<nat>, grid: seq<seq<Patch>>)
      requires WellFormed(universes, grid)
      modifies this
      ensures Valid()
      ensures sizeX == |grid| && sizeY == |grid[0]| && numUnis == |universes|
      ensures dataLength == universes
      ensures patchMap == Compile(universes, grid)
      ensures fresh(buffer) && fresh(output)
      ensures forall k :: 0 <= k < buffer.Length ==> buffer[k] == 0
      ensures forall k :: 0 <= k < output.Length ==> output[k] == 0
      ensures socketOpen == old(socketOpen) && path == old(path) && files == old(files)
    {
      var w, h := |grid|, |grid[0]|;
      var pm, dl := CompilePatchMap(universes, grid);
      var b := Zeroed(3 * (w * h));
      var o := Zeroed(3 * (w * h));
      Install(w, h, dl, pm, b, o);
    }

    /** Replace the configuration: grid size, channel counts, patch map and the two
        buffers, which must fit together as the recorder's invariant demands. */
    method Install(w: int, h: int, dl: seq<nat>, pm: Table, b: array<Byte>, o: array<Byte>)
      requires Layout(w, h, dl, pm, b.Length, o.Length) && b != o
      requires forall k :: 0 <= k < o.Length ==> o[k] == 0
      modifies this
      ensures Valid()
      ensures sizeX == w && sizeY == h && numUnis == |dl| && dataLength == dl && patchMap == pm
      ensures buffer == b && output == o
      ensures socketOpen == old(socketOpen) && path == old(path) && files == old(files)
    {
      numUnis, sizeX, sizeY, dataLength, patchMap, buffer, output := |dl|, w, h, dl, pm, b, o;
    }

    /** Start recording to a new capture file called `name`. The file is created and
        the header appended; only when both succeed does recording begin. Whatever
        happens, `name` becomes the current file. */
    method OpenSocket(name: string) returns (r: Result<string>)
      requires Valid()
      modifies this`path, this`files, this`socketOpen
      ensures Valid()
      ensures path == Some(name)
      ensures AppendOnly(old(files), files)
      ensures r.Ok? ==> r.value == name && socketOpen
      ensures r.Ok? ==> name !in old(files) && files == old(files)[name := Header(sizeX, sizeY)]
      ensures r.Err? ==> socketOpen == old(socketOpen)
      ensures r.Err? ==> files == old(files) || (name !in old(files) && files == old(files)[name := []])
      ensures r == Err(FileExists) <==> name in old(files)
      ensures r.Err? && name !in old(files) ==> r.failure == IoError
    {
      path := Some(name);
      var created: bool := *;
      if name in files {
        return Err(FileExists);
      }
      if !created {
        return Err(IoError);
      }
      files := files[name := []];
      var written: bool := *;
      if !written {
        return Err(IoError);
      }
      assert files[name] + Header(sizeX, sizeY) == Header(sizeX, sizeY);
      files := files[name := Header(sizeX, sizeY)];
      socketOpen := true;
      r := Ok(name);
    }

    /** Stop recording; answers the name of the current file. */
    method CloseSocket() returns (r: Result<string>)
      requires Valid()
      modifies this`socketOpen
      ensures Valid()
      ensures !socketOpen
      ensures r == if path.Some? then Ok(path.value) else Err(NoPath)
    {
      socketOpen := false;
      if path.None? {
        return Err(NoPath);
      }
      r := Ok(path.value);
    }

    /** Whether the recorder is recording. */
    method Status() returns (open: bool)
      ensures open == socketOpen
    {
      open := socketOpen;
    }

    /** A frame delivered by the renderer: recorded while recording, ignored otherwise. */
    method SaveFrame(frame: seq<Rgb>) returns (r: FrameOutcome)
      requires Valid()
      modifies buffer, output, this`files
      ensures Valid()
      ensures AppendOnly(old(files), files)
      ensures !socketOpen ==> r == Ignored && files == old(files) && unchanged(buffer, output)
      ensures socketOpen ==> r != Ignored
      ensures socketOpen && !FrameFits(sizeX, sizeY, |frame|) ==>
                r == Dropped && files == old(files) && unchanged(buffer, output)
      ensures socketOpen && FrameFits(sizeX, sizeY, |frame|) ==>
                && r != Dropped
                && buffer[..] == PixelBytes(frame, sizeX * sizeY)
                && output[..] == FrameRecord(patchMap, buffer[..], output.Length)
      ensures r == Written ==>
                path.Some? && path.value in old(files) && files == old(files)[path.value := old(files)[path.value] + output[..]]
      ensures r.Failed? ==> files == old(files)
      ensures r.Failed? ==> (r.failure == NoPath <==> path.None?)
      ensures r.Failed? ==> (r.failure == NoSuchFile <==> path.Some? && path.value !in old(files))
      ensures r.Failed? && path.Some? && path.value in old(files) ==> r.failure == IoError
    {
      if !socketOpen {
        return Ignored;
      }
      r := AppendFrameToFile(frame);
    }

    /** Fill the pixel buffer from a frame that fits and pack it into the output
        buffer, whose bytes past the packed ones stay zero. */
    method Render(frame: seq<Rgb>)
      requires Valid() && FrameFits(sizeX, sizeY, |frame|)
      modifies buffer, output
      ensures Valid()
      ensures buffer[..] == PixelBytes(frame, sizeX * sizeY)
      ensures output[..] == FrameRecord(patchMap, buffer[..], output.Length)
    {
      FillPixels(buffer, frame, sizeX, sizeY);
      ghost var before := output[..];
      var total := PackFrame(patchMap, dataLength, buffer[..], output);
      RecordTail(patchMap, buffer[..], before, output[..]);
    }

    /** Pack a frame and append the whole output buffer to the current file. A frame
        that does not fit the grid is dropped with nothing changed. */
    method AppendFrameToFile(frame: seq<Rgb>) returns (r: FrameOutcome)
      requires Valid()
      modifies buffer, output, this`files
      ensures Valid()
      ensures AppendOnly(old(files), files)
      ensures r != Ignored
      ensures !FrameFits(sizeX, sizeY, |frame|) ==>
                r == Dropped && files == old(files) && unchanged(buffer, output)
      ensures FrameFits(sizeX, sizeY, |frame|) ==>
                && r != Dropped
                && buffer[..] == PixelBytes(frame, sizeX * sizeY)
                && output[..] == FrameRecord(patchMap, buffer[..], output.Length)
      ensures r == Written ==>
                path.Some? && path.value in old(files) && files == old(files)[path.value := old(files)[path.value] + output[..]]
      ensures r.Failed? ==> files == old(files)
      ensures r.Failed? ==> (r.failure == NoPath <==> path.None?)
      ensures r.Failed? ==> (r.failure == NoSuchFile <==> path.Some? && path.value !in old(files))
      ensures r.Failed? && path.Some? && path.value in old(files) ==> r.failure == IoError
    {
      if !FrameFits(sizeX, sizeY, |frame|) {
        return Dropped;
      }
      Render(frame);
      if path.None? {
        return Failed(NoPath);
      }
      var name := path.value;
      if name !in files {
        return Failed(NoSuchFile);
      }
      var written: bool := *;
      if !written {
        return Failed(IoError);
      }
      files := files[name := files[name] + output[..]];
      r := Written;
    }
  }
}
