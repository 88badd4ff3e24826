# ledboard-art in Dafny

A model of the frame pipeline of ledboard-art, a Python 2 driver for a
96 x 48 LED board built from nine LED panels in a 3 x 3 grid. The model
covers three parts:

- **Panels and the board** (`LedPanel`, `LedBoard`). A board splits its
  pixels over nine panels, each `width / 3` x `height / 3`. `set_pixel`
  routes a pixel to panel `(x / pw, y / ph)` at local cell
  `(x % pw, y % ph)`. `get_surface` concatenates the panels' row-major
  buffers in the fixed wiring order `panelorder`.
- **The transport** (`NetworkConnector`). It turns a frame into the UDP
  payloads sent. A frame that fits is one datagram opened by `0x80`. A longer
  one is split into whole chunks of `maxsend_size` values; only the first
  chunk is marked.
- **The `Surface`**. It is a dict from every `(x, y)` of a grid to a colour
  tuple. Integer indexing walks the keys in sorted (x-major) order, and `+`
  adds two surfaces pixel by pixel into a copy.

The two `LedBoard` classes are separate models:

- `Board` is ledboard.py's board. It ignores pixels off the board, clamps
  values into `[0, colordepth]`, and rebuilds its surface on every
  `get_surface`.
- `MainBoard` is main.py's board. It drops out-of-range values, has no
  board bounds check (a pixel outside the panels raises KeyError), and
  appends each new frame to its surface.

main.py repeats `panelorder`, `posgen`, `flattenl`, `NetworkConnector`
and `LedPanel` (main.py:4-99). The only difference is the default
`send_timeout` of the pause between datagrams: 0.1 s in main.py:28 and
0.02 s in ledboard.py:32. The pause is not modelled, so each of these is
modelled once and the rows below cite ledboard.py.

Python's semantics are written out in the model:

- `/` and `%` are Python 2 floor division. For the positive divisors used
  here this agrees with Dafny's.
- Exceptions are values (`Errors.Result`, `Errors.Outcome`): `chr`'s
  ValueError and OverflowError, a dict's KeyError, a board narrower or lower than 3 dividing
  by zero in `set_pixel`,
  and `Surface`'s ValueError, IndexError and TypeError.
- Objects whose fields Python updates in place are classes:
  - `LedPanel.data`;
  - the board's panel dict and surface list;
  - `Surface.surface`.
- The routing and the frame layout are stated on plain values in
  `Layout`. Both boards share them.

Integer indexing of a `Surface` raises ValueError for `k < 0` and for
`k > size`, but not for `k == size`. That index reaches the list and raises
IndexError. That IndexError is
what ends Python's `for pos, v in other` iteration (the protocol on
`__getitem__`) in `__add__`. `Surfaces.Surface.Add` loops exactly that far.

Only the first datagram of a chunked frame starts with `0x80`; the later
chunks carry no marker byte at all. A trailing partial chunk is never sent;
this is listed under Findings.

## Model

The rows below are about these definitions, each a plain statement of one
piece of the source:
`Geometry.Flatten` is `flattenl` (ledboard.py:23-25);
`Transport.Compressed` is the result of `compress` (ledboard.py:43-48), and
`Transport.FirstNonByte` with `Transport.ChrError` picks the value `chr`
rejects and the exception it raises (ledboard.py:47);
`Transport.ChunkList` is the list `chunked` yields (ledboard.py:50-58);
`Transport.Marked` is the `if i:` choice of a datagram's prefix
(ledboard.py:67-71); `Transport.SendChunks` is the loop over the chunks
(ledboard.py:66-72) and `Transport.SendPacket` all of `send_packet`
(ledboard.py:60-75); `Transport.Reassembled` is what a receiver joins from
the datagrams after removing the `0x80` mark;
`Panel.PyIndex` is Python's list indexing with negative indices, as used by
`get_pixel` (ledboard.py:100-101);
`Layout.Buffers` is the list of `get_buffer()` results in `panelorder`,
`Layout.FrameOf` their concatenation in the loop of `get_surface`
(ledboard.py:172-177, main.py:152-156), and `Layout.BoardFrame` that frame
for the wiring order `panelorder` (ledboard.py:5-8);
`Surfaces.SortedKeys` is `sorted(self.surface.keys())` (ledboard.py:243);
`Surfaces.PairwiseSum` is `tuple(map(lambda a, b: a + b, v1, v2))`
(ledboard.py:275); `Surfaces.AddOne` is one pass of `__add__`'s loop
(ledboard.py:274-275), `Surfaces.AddAlong` the loop (ledboard.py:273-275),
and `Surfaces.Surface.Sum` the whole of `__add__` (ledboard.py:270-276).

| member | source | states |
|---|---|---|
| Geometry.PanelOrderIsPermutation | ledboard.py:5-8 | the wiring order has 9 entries, no repeats, and lists exactly the positions of the 3 x 3 panel grid |
| Geometry.PosGen | ledboard.py:14-20 | `w * h` positions; entry `i` is `(i % w, i / w)`, entry `y * w + x` is `(x, y)`, and together they are exactly the grid's positions |
| Geometry.FlattenConcat | ledboard.py:23-25 | flattening distributes over concatenation of the outer list |
| Geometry.FlattenLength | ledboard.py:23-25 | rows of width `w` flatten to `rows * w` values |
| Geometry.FlattenAt | ledboard.py:23-25 | cell `(x, y)` of rows of width `w` lands at index `y * w + x` |
| Geometry.FlattenRowMajor | ledboard.py:23-25 | flattening uniform rows gives their row-major layout, of length `rows * w` |
| Transport.ToBytes | ledboard.py:43-48 | one byte per value, same length, same order |
| Transport.ToBytesConcat | ledboard.py:43-48 | converting a concatenation converts each part |
| Transport.Compress | ledboard.py:43-48 | an exception exactly when some value is outside `range(256)`: the one `chr` raises for the first such value, OverflowError beyond a C `long` and ValueError otherwise; without one, one byte per value with the same value, in order |
| Transport.FirstNonByte | ledboard.py:46-47 | the index of the first value outside `range(256)`; every value before it is a byte |
| Transport.ChunkAt | ledboard.py:55-56 | chunk `i` has exactly `chunksize` values |
| Transport.Chunked | ledboard.py:50-58 | exactly `len / chunksize` pairs `(i, data[i*c:(i+1)*c])`, numbered 0, 1, ... in order |
| Transport.Payloads | ledboard.py:50-58 | the first `k` chunks, in order |
| Transport.PayloadsJoin | ledboard.py:50-58 | the chunks joined are the prefix `data[:k * chunksize]` |
| Transport.SendChunksSpec | ledboard.py:66-72 | chunk `j` is datagram `j`, marked only when numbered 0; the loop stops at the first chunk `chr` rejects, with the exception `chr` raises at that chunk's first non-byte, and otherwise sends all |
| Transport.SendChunksJoin | ledboard.py:66-69 | the unmarked datagrams joined are the chunks' bytes |
| Transport.ChunksAreBytes | ledboard.py:50-58 | chunks of a frame of bytes are bytes |
| Transport.SendPacketFits | ledboard.py:73-75 | a frame that fits is one datagram, `0x80` then every value, of length `len + 1`, or, before anything is sent, the exception `chr` raises at its first non-byte |
| Transport.SendPacketChunked | ledboard.py:65-72 | a longer frame of bytes gives `len / maxsend_size` datagrams; the first is `0x80` plus chunk 0 (`maxsend_size + 1` bytes), the rest are raw chunks of `maxsend_size` bytes |
| Transport.SendPacketRaisesIff | ledboard.py:60-75 | `send_packet` raises exactly when the single datagram, or some whole chunk, holds a non-byte |
| Transport.SendPacketError | ledboard.py:60-75 | when `send_packet` raises, the frame's first non-byte lies in the part it sends, and the exception is the one `chr` raises at that value (OverflowError or ValueError) |
| Transport.SendPacketReassembly | ledboard.py:60-75 | whenever `send_packet` raises nothing (whatever the unsent tail holds), the first `len` (fits) or `(len / maxsend_size) * maxsend_size` values are bytes and the receiver gets exactly those |
| Transport.FrameDeliveredIff | ledboard.py:54 | a frame arrives whole exactly when it fits or its length is a multiple of `maxsend_size` |
| Transport.TailDropped | ledboard.py:54 | a 513-value frame at the default size 512 loses a value |
| Transport.FlushedChunks | ledboard.py:50-58 | at least one chunk |
| Transport.FlushedCount | ledboard.py:50-58 | with the remainder flushed there are `len / size` rounded-up chunks, one for a frame that fits |
| Transport.FlushedChunksJoin | ledboard.py:50-58 | flushed chunks are at most `size` long, all but the last exactly `size`, and join to the whole frame |
| Transport.FlushedAreBytes | ledboard.py:50-58 | flushed chunks of a frame of bytes are bytes |
| Transport.SendChunksReassembly | ledboard.py:66-72 | chunks of bytes sent from number 0 raise nothing, give one datagram each and reassemble to their join |
| Transport.SendPacketFlushedDelivers | ledboard.py:60-75 | with the remainder flushed, a frame of bytes arrives whole, in `len / size` rounded-up datagrams, the first marked `0x80` |
| Transport.FlushedAgreesIff | ledboard.py:60-75 | the flushed send and `send_packet` deliver the same bytes exactly when the frame fits or divides into whole chunks |
| Panel.Zeros | ledboard.py:87-88 | `height` rows of `width` values |
| Panel.SetCell | ledboard.py:97 | only cell `[y][x]` changes, to `v`; every other cell and every row length is kept |
| Panel.LedPanel.constructor | ledboard.py:82-88 | `height` rows of `width` zeros |
| Panel.LedPanel.SetPixel | ledboard.py:91-97 | no change when `x` or `y` is outside the panel; otherwise exactly `data[y][x]` becomes the value |
| Panel.LedPanel.GetPixel | ledboard.py:100-101 | `data[y][x]` with Python's negative indices; IndexError exactly outside `[-n, n)` |
| Panel.LedPanel.GetBuffer | ledboard.py:104-105 | the `width * height` values, row-major |
| Layout.QuotientInRange | ledboard.py:157 | `0 <= x / w < k` exactly when `0 <= x < k * w` |
| Layout.PanelOf | ledboard.py:157 | the routed panel is one of the nine exactly when the pixel is inside the `3 pw` x `3 ph` area |
| Layout.LocalOf | ledboard.py:159 | the local position lies inside the panel |
| Layout.RoutingInjective | ledboard.py:157-159 | two pixels share panel and local cell exactly when they are the same pixel |
| Layout.WritePixel | ledboard.py:157-159 | a write keeps nine `pw` x `ph` panels |
| Layout.WriteLandsInOneCell | ledboard.py:157-159 | after a write, the written pixel holds `v` and every other board pixel keeps its value |
| Layout.FrameStep | ledboard.py:174-176 | one loop pass appends the next panel's buffer |
| Layout.FrameIsFlatten | ledboard.py:172-177 | the appended buffers are the flattening of the list of buffers |
| Layout.BuffersUniform | ledboard.py:174-176 | each buffer has `pw * ph` values |
| Layout.FrameLength | ledboard.py:172-177 | the frame has `|order| * pw * ph` values |
| Layout.FrameAt | ledboard.py:172-177 | cell `(x, y)` of the `k`-th panel sent is at `k * pw * ph + y * pw + x` |
| Layout.FrameLayout | ledboard.py:172-177 | every cell of every panel at that index |
| Layout.WiringIndex | ledboard.py:5-8 | every panel position has a place in the wiring order |
| Layout.BoardFrameAt | ledboard.py:172-177 | the frame has `9 * pw * ph` values, and board pixel `(x, y)` is at `k * pw * ph + (y % ph) * pw + (x % pw)`, `k` its panel's wiring index |
| Layout.FrameCoversBoard | ledboard.py:124-128 | nine `width / 3` x `height / 3` panels hold at most `width * height` LEDs, and (for non-zero sides) exactly that many if and only if both sides are divisible by 3 |
| Layout.Clamp | ledboard.py:152-155 | for a non-negative depth the result is in `[0, colordepth]`, equals the value exactly when already in range, and is `colordepth` above and 0 below |
| Layout.WriteKeepsRange | ledboard.py:152-159 | writing an in-range value keeps every cell in range |
| Layout.FlattenWithin | ledboard.py:23-25 | flattening keeps every value's range |
| Layout.FrameWithin | ledboard.py:172-177 | a frame holds only values its panels hold |
| Layout.PanelGrids | ledboard.py:133-137 | nine distinct valid panels give nine `pw` x `ph` grids, one per grid position |
| Layout.NewPanels | ledboard.py:130-137 | a fresh, distinct zero `pw` x `ph` panel for exactly each of the nine grid positions |
| Board.LedBoard.constructor | ledboard.py:121-141 | the dimensions, `width / 3` x `height / 3` panels, every panel zero, an empty surface |
| Board.LedBoard.SetPixel | ledboard.py:147-159 | off the board nothing changes; otherwise ZeroDivisionError for zero-sized panels, KeyError outside the panels, else exactly the routed cell gets the clamped value |
| Board.LedBoard.SetSurface | ledboard.py:165-166 | the surface is the argument and the panels are unchanged |
| Board.LedBoard.GetSurface | ledboard.py:172-177 | the surface is rebuilt as the panels' buffers in wiring order and returned; the panels are unchanged |
| Board.SurfaceLayout | ledboard.py:172-177 | the frame's size and where each board pixel sits in it |
| Board.FrameIsBytes | ledboard.py:172-177 | with a colour depth at most 255, every frame value is a byte |
| Board.FrameIsStable | ledboard.py:165-177 | two reads, a `set_surface`, and a third read all give the panels' frame |
| Board.BoardFrameSize | ledboard.py:172-177 | a board's frame has `9 * panelwidth * panelheight` values, never more than `width * height`, and (for non-zero sides) exactly `width * height` if and only if both sides are divisible by 3 |
| Board.DefaultFrameDelivered | ledboard.py:526-532 | a valid 96 x 48 board with a colour depth of at most 255 sends its 4608-value frame as nine datagrams, without an exception, and the receiver gets it whole |
| Board.BoardFrameDelivered | ledboard.py:172-177 | for a colour depth of at most 255, a board's frame always arrives whole with the remainder flushed, and with `send_packet` when it fits or divides into whole chunks |
| MainBoard.LedBoard.constructor | main.py:115-135 | the dimensions, zero panels, an empty surface |
| MainBoard.LedBoard.SetPixel | main.py:141-146 | out-of-range values are dropped; otherwise ZeroDivisionError, KeyError outside the panels, or exactly the routed cell set to the value |
| MainBoard.LedBoard.GetSurface | main.py:152-156 | the frame is appended to the surface and the whole surface is returned; the surface always holds one frame per call so far |
| MainBoard.LedBoard.AppendFrame | main.py:153-155 | the loop appends the panels' buffers in wiring order |
| MainBoard.OneMoreFrame | main.py:155 | one more frame keeps the surface at one frame per call |
| MainBoard.Repeat | main.py:153-155 | `n` copies of a frame hold `n` frames' worth of values |
| MainBoard.ReadRepeatedly | main.py:152-156 | `n` reads without writes: the surface grows by exactly `n` copies of the frame (on a new board it is those copies), holds one frame per call, and the panels are unchanged |
| Surfaces.SortedKeysSorted | ledboard.py:243 | the listing is strictly increasing in tuple order |
| Surfaces.SortedKeysCover | ledboard.py:243 | it lists exactly the grid's positions |
| Surfaces.SortedUnique | ledboard.py:243 | strictly sorted listings of the same positions are equal, so this is what `sorted` returns |
| Surfaces.SortedCard | ledboard.py:243 | a strictly sorted list has no repeats |
| Surfaces.GridSize | ledboard.py:328-329 | a `w` x `h` grid has `w * h` positions |
| Surfaces.AddValues | ledboard.py:251-257 | the first `len(t1)` components summed; IndexError exactly when `t2` is shorter; `PairwiseSum` for equal lengths |
| Surfaces.AddAlongStep | ledboard.py:273-275 | one more pixel is one more step |
| Surfaces.AddAlongStops | ledboard.py:273-275 | the first error ends the loop |
| Surfaces.AddAlongSums | ledboard.py:273-275 | with tuples of equal lengths, each listed pixel becomes the sum and the rest keep their value |
| Surfaces.AddAlongMissing | ledboard.py:274 | a position the left surface lacks raises |
| Surfaces.Surface.constructor | ledboard.py:199-205 | every grid position holds `(0, 0, 0)`, depth 0xFF |
| Surfaces.Surface.Copy | ledboard.py:191-198 | same shape, representation, depth and colours, in a new object |
| Surfaces.Surface.GenerateIndexes | ledboard.py:229-235 | exactly the grid's positions, each mapped to `color_rep` |
| Surfaces.Surface.SetColorRep | ledboard.py:213-215 | the new representation, and every pixel reset to it |
| Surfaces.Surface.SetColorDepth | ledboard.py:222-223 | only the depth changes |
| Surfaces.Surface.Length | ledboard.py:328-329 | `width * height` |
| Surfaces.Surface.GetSortedSurface | ledboard.py:241-246 | the keys strictly sorted, exactly the surface's keys, with their colours in the same order |
| Surfaces.Surface.SortedColors | ledboard.py:244-245 | one colour per grid position |
| Surfaces.Surface.Components | ledboard.py:317-323 | the components of every colour, colours in sorted key order |
| Surfaces.AppendEach | ledboard.py:321-322 | the colour's components appended in order |
| Surfaces.Surface.CheckSurface | ledboard.py:259-263 | accepted exactly when representations and lengths agree; a representation mismatch is reported first |
| Surfaces.Surface.GetItem | ledboard.py:281-299 | int `k`: the `k`-th sorted `(pos, colour)` for `0 <= k < size`, ValueError below 0 or above `size`, IndexError at `size`; tuple: the colour exactly when it names a position, else ValueError; any other key TypeError |
| Surfaces.Surface.SetItem | ledboard.py:304-311 | a tuple at an existing key replaces that colour; ValueError for an absent key, TypeError for a non-tuple; the key set never changes |
| Surfaces.Surface.AddStep | ledboard.py:273-275 | one pass: `other[k]`, the left colour, and the sum stored in the copy; the copy's representation and depth are kept |
| Surfaces.Surface.Add | ledboard.py:270-276 | a fresh surface with this surface's shape, representation and colour depth, holding `check_surface` then the pixel-by-pixel sum, or that computation's error |
| Surfaces.AddSumsEveryPixel | ledboard.py:270-276 | same shape and representation with tuples of equal lengths: every pixel of the sum is the component-wise sum |
| Surfaces.AddNeedsSameShape | ledboard.py:259-276 | equal sizes are not enough: a position of `other` missing from the left surface raises |

## Left out

- Sockets, `sendto`, the destination and `time.sleep` are not modelled. The model states the payloads handed to `sendto`, in order. The module-level `netcon` is left out for the same reason.
- Transport.Compress: a C `long` is taken to be 64 bits wide, as on LP64 platforms; where it is 32 bits wide, `chr` raises OverflowError from a smaller magnitude on, which the model does not follow.
- `Transport.SendPacket` requires `maxsend_size > 0`. A size of 0 sends the single datagram `0x80` for empty data, because `0 > 0` is false; for any other data, `len / 0` raises ZeroDivisionError. A negative size sends no datagram at all, since `len / maxsend_size` is then at most 0. These cases are outside the model.
- `AnalogClock` uses floating-point trigonometry, the wall clock and drawing routines from a `Graphics` module that is not part of this model.
- `LedBoardGraphics` draws through that same `Graphics` class and its `toMatrix`, so it is left out too.
- The `__repr__` methods and the print-based drivers are left out: `test_surface`, `panel_test`, `ledboard_test`, `analog_clock_test` and `main`. Two known faults live there: main.py's `__repr__` reads a missing `colorDepth`, and `panel_test` calls `LedPanel` with three arguments.
- Coordinates and values are integers. `int()` truncation of float coordinates in `LedPanel.set_pixel` is not modelled.
- `numpanels` is fixed at its default of 9. With 0 to 2, `numpanels / 3` is 0 and the constructor divides by zero. With 10 or more, `posgen(3, 3)[9]` raises IndexError in the constructor. With 3 to 8 or a negative value, construction succeeds with fewer than nine panels (none for a negative value), and `get_surface` raises KeyError at the first wiring position without a panel. None of these is modelled.
- Board and surface dimensions are non-negative integers.
- `Surface` is modelled with explicit width and height. The keyword defaults `width=1, height=1` are left out.
- Colour tuples are modelled as tuples of integers.
- An `Item` key is an int, a tuple of ints, or a value of another type. Python `long` and `bool` keys are not told apart.
- The three-element branch of `__getitem__` (the "point not implemented" print) is unreachable: a three-element tuple is never a key, so ValueError comes first. The model returns that ValueError.
- Board.LedBoard.SetSurface: the stored surface is a flat list of integers. The two-dimensional lists that `scroll` would store are not modelled.
- Lists returned by `get_surface` are values in the model. Mutating the returned list, which in Python aliases the board's `surface`, is not modelled.
- Surfaces.Surface.Components: the decimal text and spaces `__str__` writes are not modelled, only the sequence of components in write order.
- `check_surface` ignores its `s1` argument. The model takes only the other surface.
- Surfaces.Surface.SetItem: the `print(type(key), type(value))` that comes before its TypeError is output and is not modelled. The same holds for the `print` in the unreachable three-element branch of `__getitem__`.

## Findings

| source | as written | input that shows it | evidently intended | confidence | as-written member | corrected member |
|---|---|---|---|---|---|---|
| ledboard.py:54 | `chunked` loops while `it < len(data) / chunksize`, so a final partial chunk is never sent (main.py:50 is the same) | 513 values of 0 with `maxsend_size` 512: a single datagram, `0x80` and the first 512 values; the last value is never sent | the remainder flushed as a last, shorter chunk, so every frame arrives whole | medium, not executed (the 96 x 48 frame is a multiple of 512 and is unaffected) | Transport.TailDropped | Transport.SendPacketFlushedDelivers |
