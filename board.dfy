/** `LedBoard` of ledboard.py: a `width` x `height` board made of nine
    panels in a 3 x 3 grid, each `width / 3` x `height / 3`, whose frame is
    the panels' buffers in wiring order. */
module Board {

  import opened Errors
  import opened Geometry
  import opened Panel
  import opened Layout
  import Transport

  /** The board `ledboard_test` builds: 96 x 48. */
  const BoardWidth: nat := 96
  const BoardHeight: nat := 48

  class LedBoard {
    const width: nat
    const height: nat
    const size: int
    const colorDepth: int
    const panelWidth: nat
    const panelHeight: nat
    /** `panels`: the panel at each position of the 3 x 3 grid. */
    const panels: map<Pos, LedPanel>
    /** `surface`: the last frame built by `GetSurface`, or what `SetSurface` stored. */
    var surface: seq<int>

    /** One distinct `panelWidth` x `panelHeight` panel per grid position. */
    ghost predicate Shape()
      reads panels.Values
    {
      && panelWidth == width / 3 && panelHeight == height / 3 && size == width * height
      && PanelsFormGrid(panels, panelWidth, panelHeight)
    }

    /** The panels' contents, by grid position. */
    ghost function Grids(): (g: Grids)
      requires Shape()
      reads panels.Values
      ensures PanelsShaped(g, panelWidth, panelHeight)
    {
      PanelGrids(panels, panelWidth, panelHeight)
    }

    /** The shape, and — for a non-negative colour depth — every LED within `[0, colorDepth]`. */
    ghost predicate Valid()
      reads panels.Values
    {
      Shape() && (colorDepth >= 0 ==> CellsWithin(Grids(), 0, colorDepth))
    }

    /** `__init__` (with the default nine panels): a zero panel at every grid position. */
    constructor (width: nat, height: nat, colorDepth: int)
      ensures Valid()
      ensures this.width == width && this.height == height && this.colorDepth == colorDepth
      ensures panelWidth == width / 3 && panelHeight == height / 3
      ensures Grids() == map p | p in GridKeys(3, 3) :: Zeros(width / 3, height / 3)
      ensures surface == []
      ensures forall p :: p in panels ==> fresh(panels[p])
    {
      this.width := width;
      this.height := height;
      size := width * height;
      this.colorDepth := colorDepth;
      panelWidth := width / 3;
      panelHeight := height / 3;
      var m := NewPanels(width / 3, height / 3);
      ZeroGrids(m, width / 3, height / 3, colorDepth);
      panels := m;
      surface := [];
    }

    /** `set_pixel`: a pixel off the board is ignored; otherwise the clamped
        value goes to local cell `(x % panelwidth, y % panelheight)` of panel
        `(x / panelwidth, y / panelheight)`, and nothing else changes. A
        board narrower or lower than 3 divides by zero; a pixel in the strip
        the panels do not cover raises KeyError. */
    method SetPixel(x: int, y: int, value: int) returns (outcome: Outcome)
      requires Valid()
      modifies panels.Values
      ensures Valid()
      ensures outcome ==
        if !(0 <= x < width && 0 <= y < height) then Done
        else if panelWidth == 0 || panelHeight == 0 then Raised(ZeroDivisionError)
        else if PanelOf(x, y, panelWidth, panelHeight) !in GridKeys(3, 3) then Raised(KeyError)
        else Done
      ensures Grids() ==
        if 0 <= x < width && 0 <= y < height && panelWidth > 0 && panelHeight > 0
           && PanelOf(x, y, panelWidth, panelHeight) in GridKeys(3, 3)
        then WritePixel(old(Grids()), panelWidth, panelHeight, x, y, Clamp(value, colorDepth))
        else old(Grids())
    {
      if x < 0 || x >= width {
        return Done;
      }
      if y < 0 || y >= height {
        return Done;
      }
      var v := Clamp(value, colorDepth);
      if panelWidth == 0 || panelHeight == 0 {
        return Raised(ZeroDivisionError);
      }
      var pos := (x / panelWidth, y / panelHeight);
      if pos !in panels {
        return Raised(KeyError);
      }
      ghost var before := Grids();
      var panel := panels[pos];
      panel.SetPixel(x % panelWidth, y % panelHeight, v);
      assert Grids() == WritePixel(before, panelWidth, panelHeight, x, y, v);
      if colorDepth >= 0 {
        WriteKeepsRange(before, panelWidth, panelHeight, x, y, v, 0, colorDepth);
      }
      outcome := Done;
    }

    /** `set_surface`: stores `s` as the surface; the panels are not touched. */
    method SetSurface(s: seq<int>)
      requires Valid()
      modifies this
      ensures Valid() && Grids() == old(Grids())
      ensures surface == s
    {
      surface := s;
    }

    /** `get_surface`: the surface is rebuilt from the panels' buffers in
        wiring order and returned. */
    method GetSurface() returns (r: seq<int>)
      requires Valid()
      modifies this
      ensures Valid() && Grids() == old(Grids())
      ensures r == surface
      ensures r == BoardFrame(Grids(), panelWidth, panelHeight)
    {
      PanelOrderIsPermutation();
      ghost var grids := Grids();
      surface := [];
      for i := 0 to |PanelOrder|
        invariant surface == FrameOf(PanelOrder[..i], grids)
      {
        var panel := panels[PanelOrder[i]];
        var buffer := panel.GetBuffer();
        FrameStep(PanelOrder, grids, i);
        assert buffer == Flatten(grids[PanelOrder[i]]);
        surface := surface + buffer;
      }
      assert PanelOrder[..|PanelOrder|] == PanelOrder;
      assert Grids() == grids;
      r := surface;
    }
  }

  /** The frame's size and layout, for any board: `9 * pw * ph` values,
      board pixel `(x, y)` at `k * pw * ph + (y % ph) * pw + (x % pw)`. */
  lemma SurfaceLayout(b: LedBoard, x: int, y: int)
    requires b.Valid() && 0 <= x < 3 * b.panelWidth && 0 <= y < 3 * b.panelHeight
    ensures |BoardFrame(b.Grids(), b.panelWidth, b.panelHeight)| == 9 * (b.panelWidth * b.panelHeight)
    ensures var p, l := PanelOf(x, y, b.panelWidth, b.panelHeight), LocalOf(x, y, b.panelWidth, b.panelHeight);
      var i := FrameIndex(WiringIndex(p), b.panelWidth, b.panelHeight, l.0, l.1);
      0 <= i < |BoardFrame(b.Grids(), b.panelWidth, b.panelHeight)|
      && BoardFrame(b.Grids(), b.panelWidth, b.panelHeight)[i] == BoardPixel(b.Grids(), b.panelWidth, b.panelHeight, x, y)
  {
    BoardFrameAt(b.Grids(), b.panelWidth, b.panelHeight, x, y);
  }

  /** With a colour depth of at most 255 every frame value fits a byte. */
  lemma FrameIsBytes(b: LedBoard)
    requires b.Valid() && 0 <= b.colorDepth <= 255
    ensures Transport.AllBytes(BoardFrame(b.Grids(), b.panelWidth, b.panelHeight))
  {
    PanelOrderIsPermutation();
    FrameWithin(PanelOrder, b.Grids(), 0, b.colorDepth);
  }

  /** Reading the frame twice, storing a surface, and reading it again: all
      three reads give the same frame, the panels' frame, and the panels are
      left as they were. */
  method FrameIsStable(b: LedBoard, stored: seq<int>) returns (first: seq<int>, second: seq<int>, third: seq<int>)
    requires b.Valid()
    modifies b
    ensures b.Valid() && b.Grids() == old(b.Grids())
    ensures first == second == third
    ensures first == BoardFrame(b.Grids(), b.panelWidth, b.panelHeight)
  {
    first := b.GetSurface();
    second := b.GetSurface();
    b.SetSurface(stored);
    third := b.GetSurface();
  }

  /** A board's frame holds one value per LED of its nine panels: never more
      than its `width * height` pixels, and exactly that many precisely when
      (for non-zero sides) both sides are divisible by 3. */
  lemma BoardFrameSize(b: LedBoard)
    requires b.Valid()
    ensures var frame := BoardFrame(b.Grids(), b.panelWidth, b.panelHeight);
      && |frame| == 9 * (b.panelWidth * b.panelHeight)
      && |frame| <= b.size
      && (b.width > 0 && b.height > 0 ==>
            (|frame| == b.size <==> b.width % 3 == 0 && b.height % 3 == 0))
  {
    PanelOrderIsPermutation();
    FrameLength(PanelOrder, b.Grids(), b.panelWidth, b.panelHeight);
    FrameCoversBoard(b.width, b.height);
  }

  /** The default 96 x 48 board, with a colour depth of at most 255, sends its
      4608-value frame as nine 512-value datagrams, the first marked, and the
      receiver gets it whole. */
  lemma DefaultFrameDelivered(b: LedBoard)
    requires b.Valid() && b.width == BoardWidth && b.height == BoardHeight && 0 <= b.colorDepth <= 255
    ensures var frame := BoardFrame(b.Grids(), b.panelWidth, b.panelHeight);
      && |frame| == BoardWidth * BoardHeight && Transport.AllBytes(frame)
      && var t := Transport.SendPacket(frame, Transport.DefaultMaxSendSize);
      t.outcome.Done? && |t.datagrams| == 9 && Transport.Reassembled(t) == Transport.ToBytes(frame)
  {
    var frame := BoardFrame(b.Grids(), b.panelWidth, b.panelHeight);
    BoardFrameSize(b);
    FrameIsBytes(b);
    Transport.SendPacketChunked(frame, Transport.DefaultMaxSendSize);
    Transport.FrameDeliveredIff(frame, Transport.DefaultMaxSendSize);
  }

  /** Any board's frame, with a colour depth of at most 255, reaches the
      receiver whole when the remainder of the last chunk is flushed; it is
      what `send_packet` delivers too when the frame fits or splits into
      whole chunks. */
  lemma BoardFrameDelivered(b: LedBoard, maxSendSize: nat)
    requires b.Valid() && 0 <= b.colorDepth <= 255 && maxSendSize > 0
    ensures var frame := BoardFrame(b.Grids(), b.panelWidth, b.panelHeight);
      && Transport.AllBytes(frame)
      && Transport.Reassembled(Transport.SendPacketFlushed(frame, maxSendSize)) == Transport.ToBytes(frame)
      && (|frame| <= maxSendSize || |frame| % maxSendSize == 0 ==>
            Transport.Reassembled(Transport.SendPacket(frame, maxSendSize)) == Transport.ToBytes(frame))
  {
    var frame := BoardFrame(b.Grids(), b.panelWidth, b.panelHeight);
    FrameIsBytes(b);
    Transport.SendPacketFlushedDelivers(frame, maxSendSize);
    Transport.FrameDeliveredIff(frame, maxSendSize);
  }
}
