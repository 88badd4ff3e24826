/** The `LedBoard` of main.py: the same nine panels as ledboard.py's board,
    but `set_pixel` drops out-of-range values instead of clamping them and
    checks no board bounds, and `get_surface` appends each new frame to
    the surface instead of replacing it. */
module MainBoard {

  import opened Arith
  import opened Errors
  import opened Geometry
  import opened Panel
  import opened Layout

  class LedBoard {
    const width: nat
    const height: nat
    const size: int
    const colorDepth: int
    const panelWidth: nat
    const panelHeight: nat
    const panels: map<Pos, LedPanel>
    /** `surface`: every frame built so far, one after the other. */
    var surface: seq<int>
    /** How many times `GetSurface` has run. */
    ghost var calls: nat

    /** One distinct `panelWidth` x `panelHeight` panel per grid position. */
    ghost predicate Shape()
      reads panels.Values
    {
      && panelWidth == width / 3 && panelHeight == height / 3 && size == width * height
      && PanelsFormGrid(panels, panelWidth, panelHeight)
    }

    ghost function Grids(): (g: Grids)
      requires Shape()
      reads panels.Values
      ensures PanelsShaped(g, panelWidth, panelHeight)
    {
      PanelGrids(panels, panelWidth, panelHeight)
    }

    /** The shape; every LED within `[0, colorDepth]`; and the surface holds
        one frame's worth of values per call of `GetSurface`. */
    ghost predicate Valid()
      reads this, panels.Values
    {
      && Shape()
      && (colorDepth >= 0 ==> CellsWithin(Grids(), 0, colorDepth))
      && HoldsFrames(surface, calls, FrameSize(panelWidth, panelHeight))
    }

    /** `__init__` (with the default nine panels). */
    constructor (width: nat, height: nat, colorDepth: int)
      ensures Valid()
      ensures this.width == width && this.height == height && this.colorDepth == colorDepth
      ensures panelWidth == width / 3 && panelHeight == height / 3
      ensures Grids() == map p | p in GridKeys(3, 3) :: Zeros(width / 3, height / 3)
      ensures surface == [] && calls == 0
      ensures forall p :: p in panels ==> fresh(panels[p])
    {
      this.width := width;
      this.height := height;
      size := width * height;
      this.colorDepth := colorDepth;
      panelWidth := width / 3;
      panelHeight := height / 3;
      var m := NewPanels(width / 3, height / 3);
      ZeroGrids(m, width / 3, height / 3, colorDepth);
      panels := m;
      surface := [];
      calls := 0;
    }

    /** `set_pixel`: a value outside `[0, colorDepth]` is dropped; otherwise
        it goes to local cell `(x % panelwidth, y % panelheight)` of panel
        `(x / panelwidth, y / panelheight)`. With no board bounds check, a
        pixel outside the panels raises KeyError. */
    method SetPixel(x: int, y: int, value: int) returns (outcome: Outcome)
      requires Valid()
      modifies panels.Values
      ensures Valid()
      ensures outcome ==
        if value < 0 || value > colorDepth then Done
        else if panelWidth == 0 || panelHeight == 0 then Raised(ZeroDivisionError)
        else if PanelOf(x, y, panelWidth, panelHeight) !in GridKeys(3, 3) then Raised(KeyError)
        else Done
      ensures Grids() ==
        if 0 <= value <= colorDepth && panelWidth > 0 && panelHeight > 0
           && PanelOf(x, y, panelWidth, panelHeight) in GridKeys(3, 3)
        then WritePixel(old(Grids()), panelWidth, panelHeight, x, y, value)
        else old(Grids())
    {
      if value < 0 || value > colorDepth {
        return Done;
      }
      if panelWidth == 0 || panelHeight == 0 {
        return Raised(ZeroDivisionError);
      }
      var pos := (x / panelWidth, y / panelHeight);
      if pos !in panels {
        return Raised(KeyError);
      }
      ghost var before := Grids();
      var panel := panels[pos];
      panel.SetPixel(x % panelWidth, y % panelHeight, value);
      assert Grids() == WritePixel(before, panelWidth, panelHeight, x, y, value);
      WriteKeepsRange(before, panelWidth, panelHeight, x, y, value, 0, colorDepth);
      outcome := Done;
    }

    /** `get_surface`: this frame is appended to the surface, and the whole
        surface is returned. */
    method GetSurface() returns (r: seq<int>)
      requires Valid()
      modifies this
      ensures Valid()
      ensures calls == old(calls) + 1
      ensures r == surface
      ensures surface == old(surface) + BoardFrame(Grids(), panelWidth, panelHeight)
    {
      ghost var start, frameSize := surface, FrameSize(panelWidth, panelHeight);
      AppendFrame(Grids());
      FrameLength(PanelOrder, Grids(), panelWidth, panelHeight);
      OneMoreFrame(start, BoardFrame(Grids(), panelWidth, panelHeight), calls, frameSize);
      calls := calls + 1;
      r := surface;
    }

    /** The loop of `get_surface`: each panel's buffer, in wiring order, appended to the surface. */
    method AppendFrame(ghost grids: Grids)
      requires Shape() && Grids() == grids
      modifies this
      ensures calls == old(calls)
      ensures surface == old(surface) + BoardFrame(grids, panelWidth, panelHeight)
    {
      PanelOrderIsPermutation();
      ghost var start := surface;
      for i := 0 to |PanelOrder|
        invariant calls == old(calls)
        invariant surface == start + FrameOf(PanelOrder[..i], grids)
      {
        AppendPanel(i, grids);
        FrameStep(PanelOrder, grids, i);
        ConcatAssoc(start, FrameOf(PanelOrder[..i], grids), Flatten(grids[PanelOrder[i]]));
      }
      assert PanelOrder[..|PanelOrder|] == PanelOrder;
    }

    /** One pass of that loop: `self.surface += panel.get_buffer()` for the `i`-th panel wired. */
    method AppendPanel(i: nat, ghost grids: Grids)
      requires Shape() && Grids() == grids && i < |PanelOrder|
      modifies this
      ensures calls == old(calls)
      ensures PanelOrder[i] in grids && surface == old(surface) + Flatten(grids[PanelOrder[i]])
    {
      PanelOrderIsPermutation();
      var panel := panels[PanelOrder[i]];
      var buffer := panel.GetBuffer();
      surface := surface + buffer;
    }
  }

  /** `s` is as long as `n` frames of `frameSize` values. */
  predicate HoldsFrames(s: seq<int>, n: nat, frameSize: nat) {
    |s| == n * frameSize
  }

  lemma OneMoreFrame(prev: seq<int>, frame: seq<int>, calls: nat, frameSize: nat)
    requires HoldsFrames(prev, calls, frameSize) && |frame| == frameSize
    ensures HoldsFrames(prev + frame, calls + 1, frameSize)
  {
    MulStep(calls + 1, frameSize);
  }

  /** `n` copies of `frame`, one after the other. */
  function Repeat(frame: seq<int>, n: nat): (r: seq<int>)
    ensures HoldsFrames(r, n, |frame|)
  {
    if n == 0 then [] else (MulStep(n, |frame|); Repeat(frame, n - 1) + frame)
  }

  /** Reading the frame `n` times over without drawing: each result extends
      the one before by the frame, so the surface grows by `n` copies of it,
      and on a new board it is exactly `n` copies. */
  method ReadRepeatedly(b: LedBoard, n: nat) returns (last: seq<int>)
    requires b.Valid()
    modifies b
    ensures b.Valid() && b.calls == old(b.calls) + n
    ensures HoldsFrames(b.surface, b.calls, FrameSize(b.panelWidth, b.panelHeight))
    ensures last == b.surface
    ensures b.Grids() == old(b.Grids())
    ensures b.surface == old(b.surface) + Repeat(BoardFrame(b.Grids(), b.panelWidth, b.panelHeight), n)
  {
    ghost var start, frame := b.surface, BoardFrame(b.Grids(), b.panelWidth, b.panelHeight);
    last := b.surface;
    for k := 0 to n
      invariant b.Valid() && b.calls == old(b.calls) + k
      invariant last == b.surface
      invariant b.Grids() == old(b.Grids())
      invariant b.surface == start + Repeat(frame, k)
    {
      last := b.GetSurface();
      ConcatAssoc(start, Repeat(frame, k), frame);
    }
  }
}
