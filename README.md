# GlediatorToDisk capture recorder, modelled in Dafny

GlediatorToDisk records the frames that the Glediator pixel-matrix renderer would
send to Art-Net lighting universes. It writes them to a binary capture file
instead. The whole recorder is one class, `ArtNetOutputAspect`
(`src/ArtNetOutputAspect.java`). Its state is a grid size, the channel count of each
universe, a patch map, and two byte buffers. It offers five operations:

- **configure** (`interceptSetParameters`) compiles the patch map. For every channel of
  every universe, the map records which byte of the row-major colour buffer feeds it,
  or -1 when no pixel feeds it. Configure also allocates the pixel and output buffers.
- **start** (`interceptOpenSocket`) creates a capture file and writes its two-byte
  header: the width, then the height.
- **frame** (`interceptAndSaveFrame` / `appendFrameToFile`) does nothing unless
  recording. Otherwise it fills the pixel buffer from the frame's colours and packs the
  assigned channels, universe by universe and channel by channel, into the output
  buffer. Then it appends the output buffer to the file.
- **stop** (`interceptCloseSocket`) and **status** (`interceptStatus`).

The project has three modules:

- `topology.dfy` (module `Topology`): the patch map as a value. `Compile` is the
  specification of the compiler, a fold over the pixels in the source's order (x outer,
  y inner, then red, green, blue). The lemmas state what the compiled map means:
  - a slot no pixel names stays Unassigned;
  - otherwise it holds the offset of the last component that names it;
  - every assigned slot comes from such a component;
  - offsets are in range and pairwise distinct;
  - at most `3 * width * height` slots are assigned.
- `packing.dfy` (module `Packing`): the pixel buffer (`PixelBytes`), the packed frame
  (`Pack`), and where each slot lands in the packed frame. `Slot(t, u, ch)` is that
  slot's rank among the assigned slots in universe-then-channel order. The lemmas
  connect the two ends: the byte at that rank is the colour component that the
  compiled map routes there (`PackedChannel`). A worked two-universe example is
  computed end to end.
- `recorder.dfy` (module `Recorder`): the class `ArtNetOutputAspect` with the source's
  fields and methods.
  - The patch map is a `seq<seq<int>>` field; the two buffers are `array`s.
  - The nested loops of configuration, fill and packing are `for` loops, each proved
    against the specification functions above.
  - The directory of capture files is a `map` from name to contents, which the
    methods only ever extend at the end (`AppendOnly`).
  - A file-system failure is a nondeterministic choice inside the method.
  - The file name that the source derives from the clock is a parameter.

Two behaviours of the code are kept even though they may look unintended:

- Each recorded frame appends the whole output buffer, `3 * width * height` bytes:
  the packed bytes followed by bytes that no slot ever writes and that stay zero
  (`FrameRecord`). It does not append only the packed bytes.
- Start assigns the new path before it creates the file. A start that fails still
  changes the current file name. If the header write fails, an empty file is left in
  the directory.

Apart from the error paths listed under "Left out", the model departs from the code
in one place: the frame guard. The comment at line 122 calls the guard a sanity check
against the renderer's threading issues, that is, against frames that do not match
the grid. The code, though, compares the pixel count with three times the number of colours. The guard as written
is `SkippedAsWritten`. Frame recording uses the corrected guard `FrameFits` (see
Findings).

## Model

| member | source | states |
|---|---|---|
| Topology.Blank | src/ArtNetOutputAspect.java:38-50 | one slot per channel of each universe, every slot Unassigned |
| Topology.Compile | src/ArtNetOutputAspect.java:52-64 | the compiled map keeps one slot per channel of each universe |
| Topology.OffsetBound | src/ArtNetOutputAspect.java:60-62 | every offset of a pixel of the grid lies inside the 3 * width * height colour buffer |
| Topology.OffsetInjective | src/ArtNetOutputAspect.java:60-62 | distinct (pixel, component) pairs have distinct offsets |
| Topology.PixelIndex | src/ArtNetOutputAspect.java:130 | the row-major index y * width + x of a pixel is below width * height, and x and y are its remainder and quotient by the width |
| Topology.PutSlot | src/ArtNetOutputAspect.java:60-62 | one slot write (`Put`): an existing slot takes the value, the shape is kept, and every other slot keeps its value |
| Topology.PatchPixel | src/ArtNetOutputAspect.java:55-62 | the red, green and blue writes of one pixel keep the table's shape (what they write: PixelSlot) |
| Topology.PixelSlot | src/ArtNetOutputAspect.java:55-62 | writing one pixel keeps every slot and sets it to the offset of the last of the pixel's components naming it, if any |
| Topology.ColumnSlot | src/ArtNetOutputAspect.java:53-63 | the inner loop over a column changes each slot exactly as the per-slot fold ColumnValue says |
| Topology.ColumnsSlot | src/ArtNetOutputAspect.java:52-64 | the outer loop changes each slot exactly as the per-slot fold ColumnsValue says |
| Topology.PixelShape | src/ArtNetOutputAspect.java:60-62 | writing a pixel adds and removes no slot |
| Topology.ColumnShape | src/ArtNetOutputAspect.java:53-63 | writing a column adds and removes no slot |
| Topology.ColumnsShape | src/ArtNetOutputAspect.java:52-64 | writing columns adds and removes no slot |
| Topology.ColumnUntouched | src/ArtNetOutputAspect.java:53-63 | a slot no pixel of the column names keeps its value |
| Topology.ColumnLastWins | src/ArtNetOutputAspect.java:53-63 | within a column, a slot ends with the offset of the last component naming it |
| Topology.ColumnsUntouched | src/ArtNetOutputAspect.java:52-64 | a slot no visited pixel names keeps its value |
| Topology.LaterColumn | src/ArtNetOutputAspect.java:52-53 | columns after the last naming component do not name the slot |
| Topology.ColumnsLastWins | src/ArtNetOutputAspect.java:52-64 | across columns, a slot ends with the offset of the last component naming it in visiting order |
| Topology.ColumnSource | src/ArtNetOutputAspect.java:53-63 | after a column, a slot holds its old value or the offset of a component of that column that names it |
| Topology.ColumnsSource | src/ArtNetOutputAspect.java:52-64 | after the columns, a slot holds its old value or the offset of a visited component that names it |
| Topology.CompileSlot | src/ArtNetOutputAspect.java:38-64 | every slot of the compiled map exists and equals the per-slot fold from Unassigned |
| Topology.CompileUnassigned | src/ArtNetOutputAspect.java:47-49 | a slot that no pixel names stays -1 |
| Topology.CompileLastWins | src/ArtNetOutputAspect.java:52-64 | a slot holds the offset of the last component naming it (x outer, y inner, red, green, blue) |
| Topology.CompileSource | src/ArtNetOutputAspect.java:52-64 | every assigned slot holds the offset of a component that names it |
| Topology.CompileInRange | src/ArtNetOutputAspect.java:60-68 | the map has one slot per channel and every slot is -1 or a byte of the 3 * width * height buffer |
| Topology.CompileInjective | src/ArtNetOutputAspect.java:60-62 | no two slots read the same buffer byte |
| Topology.CountRowPrefix | src/ArtNetOutputAspect.java:143-150 | a prefix of a universe has no more assigned slots than the universe |
| Topology.CountPrefix | src/ArtNetOutputAspect.java:140-152 | the first universes have no more assigned slots than all of them |
| Topology.SlotBound | src/ArtNetOutputAspect.java:145-151 | the running output position never passes the number of assigned slots, and an assigned slot's position is below it |
| Topology.CountRowUpdate | src/ArtNetOutputAspect.java:60-62 | one write into a universe assigns at most one more slot |
| Topology.CountUpdate | src/ArtNetOutputAspect.java:60-62 | replacing a universe changes the count by that universe's difference |
| Topology.CountPut | src/ArtNetOutputAspect.java:60-62 | one slot write assigns at most one more slot |
| Topology.CountPixel | src/ArtNetOutputAspect.java:60-62 | one pixel assigns at most three more slots |
| Topology.CountColumnStep | src/ArtNetOutputAspect.java:53-63 | each step of the inner loop assigns at most three more slots |
| Topology.CountColumn | src/ArtNetOutputAspect.java:53-63 | a column of height y assigns at most 3 * y more slots |
| Topology.CountColumnsStep | src/ArtNetOutputAspect.java:52-64 | each column assigns at most three slots per pixel of its height |
| Topology.CountColumns | src/ArtNetOutputAspect.java:52-64 | x columns assign at most three slots per pixel |
| Topology.CountUnassigned | src/ArtNetOutputAspect.java:47-49 | a table of -1 slots has no assigned slot |
| Topology.CountRowUnassigned | src/ArtNetOutputAspect.java:47-49 | a universe of -1 slots has no assigned slot |
| Topology.CompileCountBound | src/ArtNetOutputAspect.java:52-68 | the compiled map assigns at most 3 * width * height slots, so the packed frame fits in the output buffer |
| Packing.Low8 | src/ArtNetOutputAspect.java:85-86 | the `(byte)` cast keeps v modulo 256, so a value in 0 .. 255 is unchanged |
| Packing.PixelBytes | src/ArtNetOutputAspect.java:127-136 | the pixel buffer has 3 bytes per pixel, and byte 3 * i + c is component c of colour i cut to a byte |
| Packing.PackRow | src/ArtNetOutputAspect.java:143-150 | a universe contributes one byte per assigned slot |
| Packing.Pack | src/ArtNetOutputAspect.java:139-152 | the packed frame has one byte per assigned slot of the map |
| Packing.PackRowStep | src/ArtNetOutputAspect.java:145-149 | one channel step appends the slot's byte when it is assigned and nothing when it is -1 |
| Packing.PackStep | src/ArtNetOutputAspect.java:140-151 | one universe step appends that universe's bytes |
| Packing.PackRowAt | src/ArtNetOutputAspect.java:143-150 | within a universe, an assigned slot's byte sits at its rank among the assigned slots |
| Packing.PackAt | src/ArtNetOutputAspect.java:139-152 | the packed byte at Slot(u, ch) is the buffer byte that assigned slot ch of universe u names |
| Packing.PackRowSource | src/ArtNetOutputAspect.java:143-150 | every byte of a packed universe comes from an assigned slot of it |
| Packing.PackSource | src/ArtNetOutputAspect.java:139-152 | every packed byte comes from an assigned slot, so unassigned slots contribute nothing |
| Packing.SlotOrder | src/ArtNetOutputAspect.java:140-143 | slots are packed in universe order, then channel order |
| Packing.PackedByte | src/ArtNetOutputAspect.java:145-147 | a slot holding offset 3 * i + c packs the byte of component c of colour i |
| Packing.PackedChannel | src/ArtNetOutputAspect.java:52-152 | end to end: the packed byte of a slot is the cut-to-byte component of the last pixel component wired to it |
| Packing.ExampleBlank | src/ArtNetOutputAspect.java:42-50 | the example's blank map is six and two -1 slots |
| Packing.ExampleFirstPixel | src/ArtNetOutputAspect.java:55-62 | the example's pixel (0, 0) writes offsets 0, 1, 2 |
| Packing.ExampleSecondPixel | src/ArtNetOutputAspect.java:55-62 | the example's pixel (1, 0) writes offsets 3, 4, 5 |
| Packing.ExampleCompile | src/ArtNetOutputAspect.java:38-64 | the example compiles to [[0, 1, 2, 3, 4, 5], [-1, -1]] |
| Packing.TwoPixelBytes | src/ArtNetOutputAspect.java:127-136 | a two-pixel frame fills the buffer with the first colour's bytes, then the second's |
| Packing.ExampleBytes | src/ArtNetOutputAspect.java:127-136 | the example frame fills the buffer with 10, 20, 30, 40, 50, 60 |
| Packing.PackRowOfRun | src/ArtNetOutputAspect.java:143-150 | slots 0 .. n - 1 in order pack the first n buffer bytes |
| Packing.ExamplePack | src/ArtNetOutputAspect.java:139-152 | the example packs to 10, 20, 30, 40, 50, 60; universe 1 adds nothing |
| Packing.ExampleFrameRecord | src/ArtNetOutputAspect.java:120-152 | the example end to end: compiled, filled and packed to 10 .. 60 |
| Recorder.Header | src/ArtNetOutputAspect.java:84-87 | the header is two bytes: width mod 256, then height mod 256 |
| Recorder.FrameRecord | src/ArtNetOutputAspect.java:154 | a frame appends exactly as many bytes as the output buffer holds |
| Recorder.SkippedAsWritten | src/ArtNetOutputAspect.java:123-124 | the guard as written never skips a frame that has a colour for every pixel of a non-empty grid |
| Recorder.FrameFits | src/ArtNetOutputAspect.java:122-124 | the corrected guard accepts only frames the written guard accepts too |
| Recorder.AsWrittenGuardAdmitsShortFrame | src/ArtNetOutputAspect.java:123-132 | the guard as written passes a 2 x 1 grid with a one-colour frame that does not cover the grid |
| Recorder.FrameFitsNarrowsGuard | src/ArtNetOutputAspect.java:123-124 | the corrected guard accepts exactly the frames the written guard accepts that have a colour per pixel |
| Recorder.FrameFitsCoversPixels | src/ArtNetOutputAspect.java:123-132 | under the corrected guard every pixel the fill visits has a colour |
| Recorder.BlankTable | src/ArtNetOutputAspect.java:38-50 | the first loop builds the blank map and the channel counts |
| Recorder.PatchPixels | src/ArtNetOutputAspect.java:52-64 | the nested loops leave the map the compiler specification computes |
| Recorder.PatchColumnPixels | src/ArtNetOutputAspect.java:53-63 | the inner loop writes column x as the specification says and keeps every slot |
| Recorder.WritePixel | src/ArtNetOutputAspect.java:55-62 | the pixel's red, green and blue slot writes leave the map PatchPixel computes, with every slot kept |
| Recorder.CompilePatchMap | src/ArtNetOutputAspect.java:34-64 | the compiled map equals Compile, and its offsets and assigned count fit the 3 * width * height buffers |
| Recorder.Zeroed | src/ArtNetOutputAspect.java:67-68 | a fresh zero-filled buffer of the requested size |
| Recorder.NoneVisited | src/ArtNetOutputAspect.java:127-128 | before the first pixel no buffer byte has been visited |
| Recorder.FillStart | src/ArtNetOutputAspect.java:127-128 | the fill's invariant holds before the first pixel |
| Recorder.VisitStep | src/ArtNetOutputAspect.java:128-130 | visiting pixel (x, y) adds exactly the bytes of pixel y * width + x |
| Recorder.FillStep | src/ArtNetOutputAspect.java:130-134 | writing a pixel's colour extends the filled part by that pixel |
| Recorder.ColumnStep | src/ArtNetOutputAspect.java:127-128 | the end of column x and the start of column x + 1 have visited the same bytes |
| Recorder.FillColumn | src/ArtNetOutputAspect.java:127-136 | the fill's invariant carries from one column to the next |
| Recorder.FillDone | src/ArtNetOutputAspect.java:127-136 | once every column is visited the buffer is the frame's pixel bytes |
| Recorder.WriteColour | src/ArtNetOutputAspect.java:132-134 | the three bytes of one colour written red first, nothing else changed |
| Recorder.FillPixels | src/ArtNetOutputAspect.java:127-136 | the fill loops leave the buffer equal to PixelBytes of the frame |
| Recorder.WriteAfterRun | src/ArtNetOutputAspect.java:147-148 | writing a byte just past the bytes already packed extends them by that byte |
| Recorder.PlaceRun | src/ArtNetOutputAspect.java:140-151 | a universe's bytes placed at the running offset follow the earlier universes' bytes |
| Recorder.UniverseFits | src/ArtNetOutputAspect.java:140-151 | each universe's bytes fit in the output after the earlier universes' bytes |
| Recorder.FrameStep | src/ArtNetOutputAspect.java:140-152 | one universe step turns the packed prefix of t[..u] into that of t[..u + 1] |
| Recorder.CountRowStep | src/ArtNetOutputAspect.java:146-148 | an assigned channel's write position is inside the universe's count |
| Recorder.PackUniverse | src/ArtNetOutputAspect.java:142-150 | the channel loop writes PackRow of the universe at the offset, changes nothing else, and counts its bytes |
| Recorder.PackFrame | src/ArtNetOutputAspect.java:139-152 | the universe loop writes Pack of the map at the front of the output and leaves the rest unchanged |
| Recorder.RecordTail | src/ArtNetOutputAspect.java:139-154 | the packed output over a zero tail is the frame record and stays zero past the packed bytes |
| Recorder.ArtNetOutputAspect.constructor | src/ArtNetOutputAspect.java:16-24 | not recording, no file, an empty grid, and the invariant holds |
| Recorder.ArtNetOutputAspect.SetParameters | src/ArtNetOutputAspect.java:27-71 | sets the sizes, the channel counts, patch map = Compile, fresh zeroed buffers, and keeps the recording state |
| Recorder.ArtNetOutputAspect.Install | src/ArtNetOutputAspect.java:34-68 | installs a configuration that fits together and establishes the invariant |
| Recorder.ArtNetOutputAspect.OpenSocket | src/ArtNetOutputAspect.java:74-92 | the path is set first; it fails with FileExists exactly when the file already exists, and with IoError on any other failure; on success the file is new, holds just the header and recording is on; on failure recording is unchanged |
| Recorder.ArtNetOutputAspect.CloseSocket | src/ArtNetOutputAspect.java:95-100 | recording is off; answers the current file name, or fails when there is none |
| Recorder.ArtNetOutputAspect.Status | src/ArtNetOutputAspect.java:103-106 | answers whether recording |
| Recorder.ArtNetOutputAspect.SaveFrame | src/ArtNetOutputAspect.java:109-118 | nothing changes when not recording; otherwise the frame is appended, and a failure is tagged by its cause, as AppendFrameToFile says |
| Recorder.ArtNetOutputAspect.Render | src/ArtNetOutputAspect.java:126-152 | the buffer is the frame's pixel bytes and the output buffer is the frame record |
| Recorder.ArtNetOutputAspect.AppendFrameToFile | src/ArtNetOutputAspect.java:120-155 | a frame that does not fit changes nothing; otherwise buffer and output are as specified, and a successful write appends the output buffer to the current file; a failure is NoPath exactly when no file was started, NoSuchFile exactly when the file is gone, and IoError otherwise; files only grow |

## Left out

- The aspect-weaving plumbing (`@Around` advice, `invocationPoint`, the values handed
  back to the host) is not modelled. Start and stop answer the file name where the
  source builds a status string for the GUI.
- The file name that start derives from the calendar, and the `GlediatorToDisk\output`
  directory prefix, are a `name` parameter.
- I/O failures are nondeterministic. An append either happens in full or not at all:
  partial writes are not modelled.
- `java.awt.Color` is an `Rgb` of three integers. The `(byte)` casts are `Low8`, the low
  eight bits read unsigned, which is the bit pattern a signed Java byte writes to the
  file.
- Each universe's channel count is read from element 7 of that universe's record. The
  model takes the channel counts directly, as the rest of the record is not used.
- Java `int` overflow (of `size_x * size_y * 3` and of the offsets) is not modelled:
  integers are unbounded.
- Recorder.ArtNetOutputAspect.CloseSocket: when no capture was ever started the source
  throws a null-pointer exception after clearing the flag; the model answers `NoPath`.
- Concurrent frame delivery is not modelled; calls are sequential.
- Recorder.ArtNetOutputAspect.SetParameters: requires a well-formed configuration: a
  grid with a first column, no column shorter than it, and every pixel naming an
  existing universe and channel. Channel counts are natural numbers: a negative
  count makes the source throw at the array allocation of line 45. The source throws
  an exception on all these inputs, and those exceptions are not modelled.
- Recorder.ArtNetOutputAspect.AppendFrameToFile: uses the corrected frame guard (see
  Findings). A frame that the source's guard lets through but that does not cover the
  grid makes the source throw part-way through the fill. The model drops it with
  nothing changed.
- Recorder.PackUniverse: reads the pixel buffer as a sequence, a snapshot of the array.
  The buffer is not written during packing, so the bytes read are the same.
- The patch map is a sequence of sequences rather than an array of arrays, so row
  aliasing is not modelled; the source never shares rows.
- Before configuration, the source's buffers are null. The model starts with empty
  buffers and an empty grid, so a frame delivered then is dropped by the guard, as in
  the source.

## Findings

| source | as written | input that shows it | evidently intended | confidence | as-written member | corrected member |
|---|---|---|---|---|---|---|
| src/ArtNetOutputAspect.java:123 | skips the frame only when `size_x*size_y <= 0` or `size_x*size_y > frame.length*3`, comparing pixels with three times the number of colours | a 2 x 1 grid and a frame of one colour: 2 > 3 is false, so the fill runs and reads `frame[1]`, past the end of the frame | skip when the grid has more pixels than the frame has colours: `0 < size_x*size_y <= frame.length` | high, not executed | Recorder.AsWrittenGuardAdmitsShortFrame | Recorder.FrameFitsCoversPixels |
