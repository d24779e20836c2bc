/** The integer logic of lifecells.py: the extent of the space, the viewport
    (a movable window onto the space, measured in cells) and which cells the
    viewport draws. Screen sizes come in as parameters. */
module LifeCells {
  import opened Colonies

  /** Side of one drawn cell, in pixels. */
  const CellSize: int := 10
  const ScrollbarSize: int := 30

  /** Margins between the screen edges and the drawn viewport, in pixels. */
  datatype Offsets = Offsets(north: int, east: int, south: int, west: int)

  const ScreenOffsets: Offsets := Offsets(40, 30, 30 + ScrollbarSize + 4, 0)

  /** The viewport `[space, screen, x, y, w, h, offset]` less its space and
      screen: origin and size in cells, and the screen margins. */
  datatype Viewport = Viewport(x: int, y: int, w: int, h: int, offset: Offsets)

  /** Width and height of the space. */
  datatype Extent = Extent(w: int, h: int)

  /** `int(a / d)` for integers: true division, truncated toward zero. */
  function TruncDiv(a: int, d: int): (q: int)
    requires d > 0
    ensures a >= 0 ==> 0 <= q * d <= a < q * d + d
    ensures a < 0 ==> q * d - d < a <= q * d <= 0
  {
    var n := if a >= 0 then a else -a;
    var m := n / d;
    DivBounds(n, d);
    if a >= 0 then m else -m
  }

  /** Euclidean division of a non-negative number, with the product spelled out. */
  lemma DivBounds(n: int, d: int)
    requires n >= 0 && d > 0
    ensures 0 <= (n / d) * d <= n < (n / d) * d + d
    ensures (-(n / d)) * d == -((n / d) * d)
  {
  }

  function Dist(a: int, b: int): nat
  {
    if a < b then b - a else a - b
  }

  // ---------------------------------------------------------------------------
  // Extent of the space
  // ---------------------------------------------------------------------------

  /** The space's size: the largest right edge `x + w` and bottom edge
      `y + h` over all colonies, starting from (0, 0). */
  function SpaceSize(cols: seq<Colony>): (r: Extent)
    ensures |cols| == 0 ==> r == Extent(0, 0)
    ensures r.w >= 0 && r.h >= 0
    ensures forall i :: 0 <= i < |cols| ==> cols[i].x + cols[i].w <= r.w
    ensures forall i :: 0 <= i < |cols| ==> cols[i].y + cols[i].h <= r.h
    ensures r.w == 0 || exists i :: 0 <= i < |cols| && cols[i].x + cols[i].w == r.w
    ensures r.h == 0 || exists i :: 0 <= i < |cols| && cols[i].y + cols[i].h == r.h
    decreases |cols|
  {
    if |cols| == 0 then Extent(0, 0)
    else
      var e := SpaceSize(cols[..|cols| - 1]);
      var c := cols[|cols| - 1];
      Extent(if c.x + c.w > e.w then c.x + c.w else e.w,
             if c.y + c.h > e.h then c.y + c.h else e.h)
  }

  // ---------------------------------------------------------------------------
  // Placing the viewport
  // ---------------------------------------------------------------------------

  /** `int(x + w / 2)`: the column of a colony's centre. */
  function CentreX(c: Colony): int
  {
    TruncDiv(2 * c.x + c.w, 2)
  }

  function CentreY(c: Colony): int
  {
    TruncDiv(2 * c.y + c.h, 2)
  }

  /** The origin that puts colony `c`'s centre in the middle of a viewport of
      `size` cells: `int(x + w / 2) - int(size / 2)`. */
  function CentredX(c: Colony, size: int): int
  {
    CentreX(c) - TruncDiv(size, 2)
  }

  function CentredY(c: Colony, size: int): int
  {
    CentreY(c) - TruncDiv(size, 2)
  }

  /** Centres the viewport on colony `active`, keeping its far edges inside
      the space and, when it fits, its origin non-negative. A viewport larger
      than the space on an axis is aligned with the space's far edge there, so
      its origin is negative. An index outside the colony list sends the
      viewport to (0, 0). */
  function CenterOn(cols: seq<Colony>, vp: Viewport, active: int): (r: Viewport)
    ensures r.w == vp.w && r.h == vp.h && r.offset == vp.offset
    ensures !(0 <= active < |cols|) ==> r.x == 0 && r.y == 0
    ensures 0 <= active < |cols| ==>
      r.x + r.w <= SpaceSize(cols).w && r.y + r.h <= SpaceSize(cols).h
    ensures 0 <= active < |cols| && vp.w <= SpaceSize(cols).w ==> r.x >= 0
    ensures 0 <= active < |cols| && vp.h <= SpaceSize(cols).h ==> r.y >= 0
    ensures 0 <= active < |cols| && vp.w > SpaceSize(cols).w ==> r.x == SpaceSize(cols).w - vp.w
    ensures 0 <= active < |cols| && vp.h > SpaceSize(cols).h ==> r.y == SpaceSize(cols).h - vp.h
    // when the viewport fits, its origin is the admissible one nearest the centred origin
    ensures 0 <= active < |cols| && vp.w <= SpaceSize(cols).w ==>
      forall z :: 0 <= z <= SpaceSize(cols).w - vp.w ==>
        Dist(r.x, CentredX(cols[active], vp.w)) <= Dist(z, CentredX(cols[active], vp.w))
    ensures 0 <= active < |cols| && vp.h <= SpaceSize(cols).h ==>
      forall z :: 0 <= z <= SpaceSize(cols).h - vp.h ==>
        Dist(r.y, CentredY(cols[active], vp.h)) <= Dist(z, CentredY(cols[active], vp.h))
  {
    if 0 <= active <= |cols| - 1 then
      var c := cols[active];
      var x := CentredX(c, vp.w);
      var y := CentredY(c, vp.h);
      var x := if x < 0 then 0 else x;
      var y := if y < 0 then 0 else y;
      var ext := SpaceSize(cols);
      var x := if x + vp.w > ext.w then ext.w - vp.w else x;
      var y := if y + vp.h > ext.h then ext.h - vp.h else y;
      vp.(x := x, y := y)
    else
      vp.(x := 0, y := 0)
  }

  /** One axis of a refit: the origin `v` of a viewport `oldSize` cells long
      on that axis, now `size` long, in a space `extent` long. The origin moves
      by half the change in size, then is kept non-negative and no more than
      one cell past the far edge. */
  function RefitOrigin(v: int, oldSize: int, size: int, extent: int): (r: int)
    ensures r + size - 1 <= extent
    ensures size <= extent ==> r >= 0
    ensures var v0 := v - TruncDiv(size - oldSize, 2);
      0 <= v0 && v0 + size - 1 <= extent ==> r == v0 && Dist(2 * r + size, 2 * v + oldSize) <= 1
    ensures var v0 := v - TruncDiv(size - oldSize, 2);
      v0 < 0 && size - 1 <= extent ==> r == 0
    ensures var v0 := v - TruncDiv(size - oldSize, 2);
      Max(v0, 0) + size - 1 > extent ==> r == extent - size
  {
    var v0 := v - TruncDiv(size - oldSize, 2);
    var v1 := if v0 < 0 then 0 else v0;
    if v1 + size - 1 > extent then extent - size else v1
  }

  /** Refits the viewport to a screen of `screenW` by `screenH` pixels: as many
      whole cells as fit inside the margins, the origin moved by half the
      change in size, then kept non-negative and no more than one cell past
      the space's far edges. */
  function UpdateSize(cols: seq<Colony>, vp: Viewport, screenW: int, screenH: int): (r: Viewport)
    ensures r.offset == vp.offset
    // the size is the number of whole cells between the margins
    ensures var avail := screenW - vp.offset.east - vp.offset.west;
      avail >= 0 ==> r.w * CellSize <= avail < (r.w + 1) * CellSize
    ensures var avail := screenH - vp.offset.north - vp.offset.south;
      avail >= 0 ==> r.h * CellSize <= avail < (r.h + 1) * CellSize
    // the far edges do not run more than one cell past the space
    ensures r.x + r.w - 1 <= SpaceSize(cols).w && r.y + r.h - 1 <= SpaceSize(cols).h
    ensures r.w <= SpaceSize(cols).w ==> r.x >= 0
    ensures r.h <= SpaceSize(cols).h ==> r.y >= 0
    // the origin that keeps the centre moves by half the change in size; when
    // it lies within the space it is taken, keeping the centre to within half a cell
    ensures var x0 := vp.x - TruncDiv(r.w - vp.w, 2);
      0 <= x0 && x0 + r.w - 1 <= SpaceSize(cols).w ==> r.x == x0 && Dist(2 * r.x + r.w, 2 * vp.x + vp.w) <= 1
    ensures var y0 := vp.y - TruncDiv(r.h - vp.h, 2);
      0 <= y0 && y0 + r.h - 1 <= SpaceSize(cols).h ==> r.y == y0 && Dist(2 * r.y + r.h, 2 * vp.y + vp.h) <= 1
    // otherwise it is pulled back to 0, or to the far edge when that is still too far
    ensures var x0 := vp.x - TruncDiv(r.w - vp.w, 2);
      x0 < 0 && r.w - 1 <= SpaceSize(cols).w ==> r.x == 0
    ensures var y0 := vp.y - TruncDiv(r.h - vp.h, 2);
      y0 < 0 && r.h - 1 <= SpaceSize(cols).h ==> r.y == 0
    ensures var x0 := vp.x - TruncDiv(r.w - vp.w, 2);
      Max(x0, 0) + r.w - 1 > SpaceSize(cols).w ==> r.x == SpaceSize(cols).w - r.w
    ensures var y0 := vp.y - TruncDiv(r.h - vp.h, 2);
      Max(y0, 0) + r.h - 1 > SpaceSize(cols).h ==> r.y == SpaceSize(cols).h - r.h
  {
    var w := TruncDiv(screenW - vp.offset.east - vp.offset.west, CellSize);
    var h := TruncDiv(screenH - vp.offset.north - vp.offset.south, CellSize);
    var ext := SpaceSize(cols);
    Viewport(RefitOrigin(vp.x, vp.w, w, ext.w), RefitOrigin(vp.y, vp.h, h, ext.h), w, h, vp.offset)
  }

  /** Centring depends only on the viewport's size, so centring twice on the
      same colony is the same as centring once. */
  lemma CenterOnSettled(cols: seq<Colony>, vp: Viewport, active: int)
    ensures CenterOn(cols, CenterOn(cols, vp, active), active) == CenterOn(cols, vp, active)
  {
  }

  /** A new viewport: sized to the screen, then centred on colony `active`. */
  function ViewportInit(cols: seq<Colony>, active: int, screenW: int, screenH: int, offset: Offsets): (r: Viewport)
    ensures r.offset == offset
    ensures screenW - offset.east - offset.west >= 0 ==>
      r.w * CellSize <= screenW - offset.east - offset.west < (r.w + 1) * CellSize
    ensures screenH - offset.north - offset.south >= 0 ==>
      r.h * CellSize <= screenH - offset.north - offset.south < (r.h + 1) * CellSize
    ensures !(0 <= active < |cols|) ==> r.x == 0 && r.y == 0
    ensures 0 <= active < |cols| ==>
      r.x + r.w <= SpaceSize(cols).w && r.y + r.h <= SpaceSize(cols).h
    // it is centred on the active colony: recentring changes nothing, and
    // where it fits its origin is the admissible one nearest the centred one
    ensures CenterOn(cols, r, active) == r
    ensures 0 <= active < |cols| && r.w <= SpaceSize(cols).w ==>
      forall z :: 0 <= z <= SpaceSize(cols).w - r.w ==>
        Dist(r.x, CentredX(cols[active], r.w)) <= Dist(z, CentredX(cols[active], r.w))
    ensures 0 <= active < |cols| && r.h <= SpaceSize(cols).h ==>
      forall z :: 0 <= z <= SpaceSize(cols).h - r.h ==>
        Dist(r.y, CentredY(cols[active], r.h)) <= Dist(z, CentredY(cols[active], r.h))
  {
    var sized := UpdateSize(cols, Viewport(0, 0, 0, 0, offset), screenW, screenH);
    CenterOnSettled(cols, sized, active);
    CenterOn(cols, sized, active)
  }

  // ---------------------------------------------------------------------------
  // Scrolling
  // ---------------------------------------------------------------------------

  /** The viewport after a frame's scrolling, and the pending shifts. */
  datatype Scroll = Scroll(vp: Viewport, hShift: int, vShift: int)

  /** One axis of a placed viewport: pinned to 0 when the viewport is at least
      as large as the space, otherwise between 0 and one cell past the far
      edge. */
  predicate AxisPlaced(v: int, size: int, extent: int)
  {
    if size >= extent then v == 0 else 0 <= v <= extent - size + 1
  }

  /** Applies the pending horizontal and vertical shifts, clamped to the space,
      and clears them. A viewport at least as large as the space on an axis is
      pinned to 0 on that axis whenever any shift is pending. */
  function ApplyShift(cols: seq<Colony>, vp: Viewport, hShift: int, vShift: int): (r: Scroll)
    ensures r.hShift == 0 && r.vShift == 0
    ensures r.vp.w == vp.w && r.vp.h == vp.h && r.vp.offset == vp.offset
    ensures hShift == 0 && vShift == 0 ==> r.vp == vp
    ensures (hShift != 0 || vShift != 0) && vp.w >= SpaceSize(cols).w ==> r.vp.x == 0
    ensures (hShift != 0 || vShift != 0) && vp.h >= SpaceSize(cols).h ==> r.vp.y == 0
    ensures hShift != 0 && vp.w < SpaceSize(cols).w ==> 0 <= r.vp.x <= SpaceSize(cols).w - vp.w + 1
    ensures vShift != 0 && vp.h < SpaceSize(cols).h ==> 0 <= r.vp.y <= SpaceSize(cols).h - vp.h + 1
    // a shift past an edge stops at that edge
    ensures hShift != 0 && vp.w < SpaceSize(cols).w && vp.x + hShift < 0 ==> r.vp.x == 0
    ensures vShift != 0 && vp.h < SpaceSize(cols).h && vp.y + vShift < 0 ==> r.vp.y == 0
    ensures hShift != 0 && vp.w < SpaceSize(cols).w && vp.x + hShift + vp.w - 1 > SpaceSize(cols).w
      ==> r.vp.x == SpaceSize(cols).w - vp.w
    ensures vShift != 0 && vp.h < SpaceSize(cols).h && vp.y + vShift + vp.h - 1 > SpaceSize(cols).h
      ==> r.vp.y == SpaceSize(cols).h - vp.h
    ensures hShift == 0 && vp.w < SpaceSize(cols).w ==> r.vp.x == vp.x
    ensures vShift == 0 && vp.h < SpaceSize(cols).h ==> r.vp.y == vp.y
    // a shift that stays within the space moves the viewport by exactly that much
    ensures vp.w < SpaceSize(cols).w && 0 <= vp.x + hShift && vp.x + hShift + vp.w - 1 <= SpaceSize(cols).w
      ==> r.vp.x == vp.x + hShift
    ensures vp.h < SpaceSize(cols).h && 0 <= vp.y + vShift && vp.y + vShift + vp.h - 1 <= SpaceSize(cols).h
      ==> r.vp.y == vp.y + vShift
    // placement is kept
    ensures AxisPlaced(vp.x, vp.w, SpaceSize(cols).w) ==> AxisPlaced(r.vp.x, vp.w, SpaceSize(cols).w)
    ensures AxisPlaced(vp.y, vp.h, SpaceSize(cols).h) ==> AxisPlaced(r.vp.y, vp.h, SpaceSize(cols).h)
  {
    if hShift == 0 && vShift == 0 then Scroll(vp, 0, 0)
    else
      var ext := SpaceSize(cols);
      var x :=
        if vp.w >= ext.w then 0
        else if hShift == 0 then vp.x
        else
          var x := vp.x + hShift;
          var x := if x < 0 then 0 else x;
          if x + vp.w - 1 > ext.w then ext.w - vp.w else x;
      var y :=
        if vp.h >= ext.h then 0
        else if vShift == 0 then vp.y
        else
          var y := vp.y + vShift;
          var y := if y < 0 then 0 else y;
          if y + vp.h - 1 > ext.h then ext.h - vp.h else y;
      Scroll(vp.(x := x, y := y), 0, 0)
  }

  // ---------------------------------------------------------------------------
  // The active colony
  // ---------------------------------------------------------------------------

  /** The 'p' key: the previous colony, never below index 0. */
  function SelectPrevious(active: int): (r: int)
    ensures r >= 0
    ensures active <= 0 ==> r == 0
    ensures active >= 0 ==> r <= active
    ensures active > 0 ==> r + 1 == active
  {
    var a := active - 1;
    if a < 0 then 0 else a
  }

  /** The 'n' key: the next colony, never above the last index. */
  function SelectNext(active: int, ncols: nat): (r: int)
    ensures r <= ncols - 1
    ensures 0 <= active < ncols ==> 0 <= r < ncols
    ensures active < ncols - 1 ==> r == active + 1
    ensures active >= ncols - 1 ==> r == ncols - 1
    // 'p' undoes 'n' away from the last colony
    ensures 0 <= active < ncols - 1 ==> SelectPrevious(r) == active
  {
    var a := active + 1;
    if a > ncols - 1 then ncols - 1 else a
  }

  /** The active index after a day: `None` when no colony is left (the program
      stops), otherwise the index pulled back to the last colony when the
      colony count changed and it fell off the end. */
  function AfterDay(active: int, before: nat, after: nat): (r: Option<int>)
    ensures r.None? <==> after == 0
    ensures r.Some? && before == after ==> r.value == active
    ensures r.Some? && before != after ==> r.value <= after - 1
    ensures r.Some? && before != after && active > after - 1 ==> r.value == after - 1
    ensures r.Some? && active <= after - 1 ==> r.value == active
    // a valid index stays valid
    ensures 0 <= active < before && 0 < after ==> r.Some? && 0 <= r.value < after
  {
    if after == 0 then None
    else if before != after && active > after - 1 then Some(after - 1)
    else Some(active)
  }

  /** After a day that changed the colony count, a valid index becomes the
      valid index nearest to it. */
  lemma AfterDayNearest(active: int, before: nat, after: nat)
    requires 0 <= active && before != after && 0 < after
    ensures AfterDay(active, before, after).Some?
    ensures var a := AfterDay(active, before, after).value;
      0 <= a < after && forall z :: 0 <= z < after ==> Dist(a, active) <= Dist(z, active)
  {
  }

  /** A new day, once the colonies have been advanced: the program stops when
      none is left; when the count changed, the active index is pulled back
      into range and the viewport is refitted to the screen and recentred. */
  function NewDay(cols: seq<Colony>, before: nat, vp: Viewport, active: int, screenW: int, screenH: int)
    : (r: Option<(int, Viewport)>)
    ensures r.None? <==> |cols| == 0
    ensures r.Some? ==> r.value.1.offset == vp.offset
    ensures r.Some? && before == |cols| ==> r.value == (active, vp)
    ensures r.Some? ==> Some(r.value.0) == AfterDay(active, before, |cols|)
    ensures r.Some? && before != |cols| ==>
      var v := r.value.1;
      && v.w == UpdateSize(cols, vp, screenW, screenH).w
      && v.h == UpdateSize(cols, vp, screenW, screenH).h
      && CenterOn(cols, v, r.value.0) == v
    ensures 0 <= active < before && r.Some? ==> 0 <= r.value.0 < |cols|
  {
    var a := AfterDay(active, before, |cols|);
    if a.None? then None
    else if before != |cols| then
      var sized := UpdateSize(cols, vp, screenW, screenH);
      CenterOnSettled(cols, sized, a.value);
      Some((a.value, CenterOn(cols, sized, a.value)))
    else Some((a.value, vp))
  }

  // ---------------------------------------------------------------------------
  // Drawing
  // ---------------------------------------------------------------------------

  /** The ten cell colours; slot 0 is also used for cells older than nine. */
  const Palette: seq<(int, int, int)> := [
    (0, 75, 0), (0, 255, 0), (0, 235, 0), (0, 215, 0), (0, 195, 0),
    (0, 175, 0), (0, 155, 0), (0, 135, 0), (0, 115, 0), (0, 95, 0)]

  /** The palette slot of a cell's age. */
  function ColourIndex(age: nat): (i: nat)
    ensures i < |Palette|
    ensures age <= 9 ==> i == age
    ensures age > 9 ==> i == 0
    // the colour slot is the digit the text display shows
    ensures age > 0 ==> DisplayChar(age) as int - '0' as int == i
  {
    if age > 9 then 0 else age
  }

  /** The space cell (sx, sy) lies inside the viewport. */
  predicate InView(vp: Viewport, sx: int, sy: int)
  {
    && sx >= vp.x && sx <= vp.x + vp.w - 1
    && sy >= vp.y && sy <= vp.y + vp.h - 1
  }

  /** The four corners of a colony, in the order the drawing code tests them:
      bottom-left, bottom-right, top-left, top-right. */
  function Corners(c: Colony): seq<(int, int)>
  {
    [(c.x, c.y + c.h - 1), (c.x + c.w - 1, c.y + c.h - 1), (c.x, c.y), (c.x + c.w - 1, c.y)]
  }

  /** The drawing code's test for scanning a colony at all, as written: one of
      its four corners lies in the viewport. */
  predicate ColonyVisible(c: Colony, vp: Viewport)
  {
    || ((c.x <= vp.x + vp.w - 1 && c.x >= vp.x)
        && (c.y + c.h - 1 >= vp.y && c.y + c.h - 1 <= vp.y + vp.h - 1))
    || ((c.x + c.w - 1 >= vp.x && c.x + c.w - 1 <= vp.x + vp.w - 1)
        && (c.y + c.h - 1 >= vp.y && c.y + c.h - 1 <= vp.y + vp.h - 1))
    || ((c.x >= vp.x && c.x <= vp.x + vp.w - 1)
        && (c.y >= vp.y && c.y <= vp.y + vp.h - 1))
    || ((c.x + c.w - 1 >= vp.x && c.x + c.w - 1 <= vp.x + vp.w - 1)
        && (c.y >= vp.y && c.y <= vp.y + vp.h - 1))
  }

  /** The corner test admits a colony exactly when one of its corners is in view. */
  lemma CornerTestMeaning(c: Colony, vp: Viewport)
    ensures ColonyVisible(c, vp) <==> exists p :: p in Corners(c) && InView(vp, p.0, p.1)
  {
    var cs := Corners(c);
    if ColonyVisible(c, vp) {
      var p :=
        if InView(vp, cs[0].0, cs[0].1) then cs[0]
        else if InView(vp, cs[1].0, cs[1].1) then cs[1]
        else if InView(vp, cs[2].0, cs[2].1) then cs[2]
        else cs[3];
      assert p in cs && InView(vp, p.0, p.1);
    }
  }

  /** The colony's rectangle and the viewport share at least one cell. */
  predicate ColonyOverlaps(c: Colony, vp: Viewport)
  {
    && c.x <= vp.x + vp.w - 1 && vp.x <= c.x + c.w - 1
    && c.y <= vp.y + vp.h - 1 && vp.y <= c.y + c.h - 1
  }

  /** The overlap test admits every colony of non-zero size that the corner
      test admits, and every colony with a cell of its rectangle in view. */
  lemma OverlapAdmits(c: Colony, vp: Viewport)
    ensures ColonyVisible(c, vp) && c.w > 0 && c.h > 0 ==> ColonyOverlaps(c, vp)
    ensures forall sx, sy ::
      (c.x <= sx < c.x + c.w && c.y <= sy < c.y + c.h && InView(vp, sx, sy)) ==> ColonyOverlaps(c, vp)
  {
  }

  /** One drawn circle: the viewport cell it fills, counted in columns and
      rows from the viewport's top-left cell, and its palette slot. */
  datatype Dot = Dot(col: int, row: int, colour: nat)

  /** A live cell inside the viewport is drawn. */
  predicate Drawn(cell: Cell, vp: Viewport, sx: int, sy: int)
  {
    cell.age > 0 && InView(vp, sx, sy)
  }

  /** The circle for the space cell at (sx, sy). */
  function DotAt(cell: Cell, vp: Viewport, sx: int, sy: int): Dot
  {
    Dot(sx - vp.x, sy - vp.y, ColourIndex(cell.age))
  }

  /** `int(k * CELL_SIZE + CELL_SIZE / 2)`: the pixel centre of viewport cell
      `k` (the sum is whole, so truncation keeps it). A circle of radius
      `CELL_SIZE / 2` around it stays within that cell's pixels. */
  function PixelCentre(k: int): (p: int)
    ensures k * CellSize <= p - CellSize / 2 && p + CellSize / 2 <= (k + 1) * CellSize
  {
    k * CellSize + CellSize / 2
  }

  /** The circle fills a cell of the viewport and has a palette colour. */
  predicate OnSurface(d: Dot, vp: Viewport)
  {
    && 0 <= d.col < vp.w
    && 0 <= d.row < vp.h
    && d.colour < |Palette|
  }

  /** The circles of one row whose first cell is at (sx, sy), left to right. */
  function RowDots(row: seq<Cell>, vp: Viewport, sx: int, sy: int): (r: seq<Dot>)
    ensures forall d :: d in r ==> OnSurface(d, vp)
    ensures |r| <= |row|
    decreases |row|
  {
    if |row| == 0 then []
    else
      var here := if Drawn(row[0], vp, sx, sy) then [DotAt(row[0], vp, sx, sy)] else [];
      here + RowDots(row[1..], vp, sx + 1, sy)
  }

  /** The circles of a grid whose top-left cell is at (sx, sy), row by row. */
  function GridDots(rows: seq<seq<Cell>>, vp: Viewport, sx: int, sy: int): (r: seq<Dot>)
    ensures forall d :: d in r ==> OnSurface(d, vp)
    decreases |rows|
  {
    if |rows| == 0 then []
    else RowDots(rows[0], vp, sx, sy) + GridDots(rows[1..], vp, sx, sy + 1)
  }

  /** The circles of one colony as the drawing code computes them: a colony
      none of whose corners is in view is skipped. */
  function ColonyDotsAsWritten(c: Colony, vp: Viewport): seq<Dot>
  {
    if ColonyVisible(c, vp) then GridDots(c.rows, vp, c.x, c.y) else []
  }

  /** The circles of a whole frame as the drawing code computes them. */
  function FrameDotsAsWritten(cols: seq<Colony>, vp: Viewport): (r: seq<Dot>)
    ensures forall d :: d in r ==> OnSurface(d, vp)
    decreases |cols|
  {
    if |cols| == 0 then [] else ColonyDotsAsWritten(cols[0], vp) + FrameDotsAsWritten(cols[1..], vp)
  }

  /** The corrected circles of one colony; colonies off the viewport are
      skipped. */
  function ColonyDots(c: Colony, vp: Viewport): seq<Dot>
  {
    if ColonyOverlaps(c, vp) then GridDots(c.rows, vp, c.x, c.y) else []
  }

  /** The corrected circles of a whole frame, colony by colony. */
  function FrameDots(cols: seq<Colony>, vp: Viewport): (r: seq<Dot>)
    ensures forall d :: d in r ==> OnSurface(d, vp)
    decreases |cols|
  {
    if |cols| == 0 then [] else ColonyDots(cols[0], vp) + FrameDots(cols[1..], vp)
  }

  lemma {:induction false} RowDotsComplete(row: seq<Cell>, vp: Viewport, sx: int, sy: int, j: int)
    requires 0 <= j < |row| && Drawn(row[j], vp, sx + j, sy)
    ensures DotAt(row[j], vp, sx + j, sy) in RowDots(row, vp, sx, sy)
    decreases |row|
  {
    if j > 0 {
      RowDotsComplete(row[1..], vp, sx + 1, sy, j - 1);
    }
  }

  /** The circles of a row run left to right, at most one per cell of the
      row, all on the row's own line of the viewport. */
  lemma {:induction false} RowDotsOrdered(row: seq<Cell>, vp: Viewport, sx: int, sy: int)
    ensures var r := RowDots(row, vp, sx, sy);
      && (forall d :: d in r ==> sx - vp.x <= d.col < sx - vp.x + |row| && d.row == sy - vp.y)
      && (forall a, b :: 0 <= a < b < |r| ==> r[a].col < r[b].col)
    decreases |row|
  {
    if |row| > 0 {
      RowDotsOrdered(row[1..], vp, sx + 1, sy);
    }
  }

  /** The drawing surface is the screen less its margins. When the viewport
      is no wider or taller than that surface, as `UpdateSize` makes it, every
      circle of a frame, as drawn or as corrected, lies wholly on the surface. */
  lemma DotsFitSurface(cols: seq<Colony>, vp: Viewport, d: Dot, surfaceW: int, surfaceH: int)
    requires d in FrameDotsAsWritten(cols, vp) || d in FrameDots(cols, vp)
    requires vp.w * CellSize <= surfaceW && vp.h * CellSize <= surfaceH
    ensures 0 <= PixelCentre(d.col) - CellSize / 2 && PixelCentre(d.col) + CellSize / 2 <= surfaceW
    ensures 0 <= PixelCentre(d.row) - CellSize / 2 && PixelCentre(d.row) + CellSize / 2 <= surfaceH
  {
    assert OnSurface(d, vp);
    assert (d.col + 1) * CellSize <= vp.w * CellSize;
    assert (d.row + 1) * CellSize <= vp.h * CellSize;
  }

  /** `d` is the circle of cell `j` of a row whose first cell is at (sx, sy),
      and that cell is drawn. */
  predicate RowDotOf(row: seq<Cell>, vp: Viewport, sx: int, sy: int, d: Dot, j: int)
  {
    0 <= j < |row| && Drawn(row[j], vp, sx + j, sy) && d == DotAt(row[j], vp, sx + j, sy)
  }

  lemma {:induction false} RowDotsSound(row: seq<Cell>, vp: Viewport, sx: int, sy: int, d: Dot)
    requires d in RowDots(row, vp, sx, sy)
    ensures exists j :: RowDotOf(row, vp, sx, sy, d, j)
    decreases |row|
  {
    var here := if Drawn(row[0], vp, sx, sy) then [DotAt(row[0], vp, sx, sy)] else [];
    assert RowDots(row, vp, sx, sy) == here + RowDots(row[1..], vp, sx + 1, sy);
    if d in here {
      assert RowDotOf(row, vp, sx, sy, d, 0);
    } else {
      RowDotsSound(row[1..], vp, sx + 1, sy, d);
      var j :| RowDotOf(row[1..], vp, sx + 1, sy, d, j);
      assert row[1..][j] == row[j + 1] && sx + 1 + j == sx + (j + 1);
      assert RowDotOf(row, vp, sx, sy, d, j + 1);
    }
  }

  /** Every live cell of a grid that lies in the viewport gets its circle. */
  lemma {:induction false} GridDotsComplete(rows: seq<seq<Cell>>, vp: Viewport, sx: int, sy: int, i: int, j: int)
    requires 0 <= i < |rows| && 0 <= j < |rows[i]| && Drawn(rows[i][j], vp, sx + j, sy + i)
    ensures DotAt(rows[i][j], vp, sx + j, sy + i) in GridDots(rows, vp, sx, sy)
    decreases |rows|
  {
    var d := DotAt(rows[i][j], vp, sx + j, sy + i);
    assert GridDots(rows, vp, sx, sy) == RowDots(rows[0], vp, sx, sy) + GridDots(rows[1..], vp, sx, sy + 1);
    if i == 0 {
      RowDotsComplete(rows[0], vp, sx, sy, j);
      assert d in RowDots(rows[0], vp, sx, sy);
    } else {
      assert rows[1..][i - 1] == rows[i] && sy + 1 + (i - 1) == sy + i;
      GridDotsComplete(rows[1..], vp, sx, sy + 1, i - 1, j);
      assert d in GridDots(rows[1..], vp, sx, sy + 1);
    }
  }

  /** `d` is the circle of cell (i, j) of a grid whose top-left cell is at
      (sx, sy), and that cell is drawn. */
  predicate GridDotOf(rows: seq<seq<Cell>>, vp: Viewport, sx: int, sy: int, d: Dot, i: int, j: int)
  {
    0 <= i < |rows| && RowDotOf(rows[i], vp, sx, sy + i, d, j)
  }

  /** Every circle of a grid is that of a live cell lying in the viewport. */
  lemma {:induction false} GridDotsSound(rows: seq<seq<Cell>>, vp: Viewport, sx: int, sy: int, d: Dot)
    requires d in GridDots(rows, vp, sx, sy)
    ensures exists i, j :: GridDotOf(rows, vp, sx, sy, d, i, j)
    decreases |rows|
  {
    assert GridDots(rows, vp, sx, sy) == RowDots(rows[0], vp, sx, sy) + GridDots(rows[1..], vp, sx, sy + 1);
    if d in RowDots(rows[0], vp, sx, sy) {
      RowDotsSound(rows[0], vp, sx, sy, d);
      var j :| RowDotOf(rows[0], vp, sx, sy, d, j);
      assert GridDotOf(rows, vp, sx, sy, d, 0, j);
    } else {
      GridDotsSound(rows[1..], vp, sx, sy + 1, d);
      var i, j :| GridDotOf(rows[1..], vp, sx, sy + 1, d, i, j);
      assert rows[1..][i] == rows[i + 1] && sy + 1 + i == sy + (i + 1);
      assert GridDotOf(rows, vp, sx, sy, d, i + 1, j);
    }
  }

  /** With the overlap test, every live cell of a rectangular colony that lies
      inside the viewport is drawn. */
  lemma ColonyDotsComplete(c: Colony, vp: Viewport, i: int, j: int)
    requires Rectangular(c) && 0 <= i < c.h && 0 <= j < c.w
    requires Drawn(c.rows[i][j], vp, c.x + j, c.y + i)
    ensures DotAt(c.rows[i][j], vp, c.x + j, c.y + i) in ColonyDots(c, vp)
  {
    OverlapAdmits(c, vp);
    assert c.x <= c.x + j < c.x + c.w && c.y <= c.y + i < c.y + c.h;
    GridDotsComplete(c.rows, vp, c.x, c.y, i, j);
  }

  /** With the overlap test, every live cell of every rectangular colony that
      lies inside the viewport is drawn. */
  lemma {:induction false} FrameDotsComplete(cols: seq<Colony>, vp: Viewport, n: int, i: int, j: int)
    requires 0 <= n < |cols| && Rectangular(cols[n])
    requires 0 <= i < cols[n].h && 0 <= j < cols[n].w
    requires Drawn(cols[n].rows[i][j], vp, cols[n].x + j, cols[n].y + i)
    ensures DotAt(cols[n].rows[i][j], vp, cols[n].x + j, cols[n].y + i) in FrameDots(cols, vp)
    decreases |cols|
  {
    if n == 0 {
      ColonyDotsComplete(cols[0], vp, i, j);
    } else {
      assert cols[1..][n - 1] == cols[n];
      FrameDotsComplete(cols[1..], vp, n - 1, i, j);
    }
  }

  /** An illustration of the corner test skipping a colony that has a live
      cell in the viewport, on a viewport smaller than the 67-by-39 minimum the
      program produces: a 3-by-3 colony at (0, 0) with its centre alive, seen
      through a 1-by-1 viewport at (1, 1). No corner is inside, yet the centre
      cell is. `CornerTestSkipsWideColony` is the case the program reaches. */
  lemma CornerTestSkipsCoveringColony()
    ensures var c := Colony(1, 0, 0, 3, 3,
                            [[EmptyCell, EmptyCell, EmptyCell],
                             [EmptyCell, Cell(1, NoNeighbours), EmptyCell],
                             [EmptyCell, EmptyCell, EmptyCell]]);
      var vp := Viewport(1, 1, 1, 1, ScreenOffsets);
      && Rectangular(c)
      && !ColonyVisible(c, vp)
      && Drawn(c.rows[1][1], vp, c.x + 1, c.y + 1)
      && ColonyOverlaps(c, vp)
  {
  }

  /** A colony that reaches past the viewport on both sides of one axis has
      no corner in view, so the drawing code draws none of its cells. */
  lemma SpanningColonySkipped(c: Colony, vp: Viewport)
    requires || (c.x < vp.x && vp.x + vp.w - 1 < c.x + c.w - 1)
             || (c.y < vp.y && vp.y + vp.h - 1 < c.y + c.h - 1)
    ensures !ColonyVisible(c, vp)
    ensures FrameDotsAsWritten([c], vp) == []
  {
    assert FrameDotsAsWritten([c], vp) == ColonyDotsAsWritten(c, vp) + FrameDotsAsWritten([c][1..], vp);
  }

  /** For such a colony, a live cell in view is missing from the frame as
      written and present in the corrected frame. */
  lemma AsWrittenMissesSpanningColony(c: Colony, vp: Viewport, i: int, j: int)
    requires || (c.x < vp.x && vp.x + vp.w - 1 < c.x + c.w - 1)
             || (c.y < vp.y && vp.y + vp.h - 1 < c.y + c.h - 1)
    requires Rectangular(c) && 0 <= i < c.h && 0 <= j < c.w
    requires Drawn(c.rows[i][j], vp, c.x + j, c.y + i)
    ensures DotAt(c.rows[i][j], vp, c.x + j, c.y + i) !in FrameDotsAsWritten([c], vp)
    ensures DotAt(c.rows[i][j], vp, c.x + j, c.y + i) in FrameDots([c], vp)
  {
    SpanningColonySkipped(c, vp);
    FrameDotsComplete([c], vp, 0, i, j);
  }

  /** The viewer opened on a 700-by-500 screen over a space holding one colony,
      100 cells wide and 1 tall at (0, 0), alive only in column 50. The
      viewport is 67 by 39 cells at (17, -38), so the live cell is in view, but
      the frame as written is empty; the corrected frame draws it. */
  lemma CornerTestSkipsWideColony()
    ensures var c := Colony(0, 0, 0, 100, 1,
                            [seq(100, k => if k == 50 then Cell(1, NoNeighbours) else EmptyCell)]);
      var vp := ViewportInit([c], 0, 700, 500, ScreenOffsets);
      && vp == Viewport(17, -38, 67, 39, ScreenOffsets)
      && Drawn(c.rows[0][50], vp, 50, 0)
      && FrameDotsAsWritten([c], vp) == []
      && Dot(33, 38, 1) in FrameDots([c], vp)
  {
    var c := Colony(0, 0, 0, 100, 1,
                    [seq(100, k => if k == 50 then Cell(1, NoNeighbours) else EmptyCell)]);
    assert SpaceSize([c]) == Extent(100, 1) by {
      assert SpaceSize([c][..0]) == Extent(0, 0);
    }
    var vp := ViewportInit([c], 0, 700, 500, ScreenOffsets);
    assert vp == Viewport(17, -38, 67, 39, ScreenOffsets);
    assert c.rows[0][50] == Cell(1, NoNeighbours);
    AsWrittenMissesSpanningColony(c, vp, 0, 50);
  }

  /** Every circle of the frame as drawn is that of a live cell in view, in
      a colony with a corner in view. */
  lemma {:induction false} FrameDotsAsWrittenSound(cols: seq<Colony>, vp: Viewport, d: Dot)
    requires d in FrameDotsAsWritten(cols, vp)
    ensures exists n, i, j ::
      0 <= n < |cols| && ColonyVisible(cols[n], vp) && GridDotOf(cols[n].rows, vp, cols[n].x, cols[n].y, d, i, j)
    decreases |cols|
  {
    assert FrameDotsAsWritten(cols, vp) == ColonyDotsAsWritten(cols[0], vp) + FrameDotsAsWritten(cols[1..], vp);
    if d in ColonyDotsAsWritten(cols[0], vp) {
      GridDotsSound(cols[0].rows, vp, cols[0].x, cols[0].y, d);
      var i, j :| GridDotOf(cols[0].rows, vp, cols[0].x, cols[0].y, d, i, j);
      assert 0 <= 0 < |cols| && ColonyVisible(cols[0], vp);
    } else {
      FrameDotsAsWrittenSound(cols[1..], vp, d);
      var n, i, j :| 0 <= n < |cols[1..]| && ColonyVisible(cols[1..][n], vp)
        && GridDotOf(cols[1..][n].rows, vp, cols[1..][n].x, cols[1..][n].y, d, i, j);
      assert cols[1..][n] == cols[n + 1];
    }
  }

  /** Every live cell in view of a colony with a corner in view is drawn in
      the frame as drawn. */
  lemma {:induction false} FrameDotsAsWrittenComplete(cols: seq<Colony>, vp: Viewport, n: int, i: int, j: int)
    requires 0 <= n < |cols| && ColonyVisible(cols[n], vp)
    requires 0 <= i < |cols[n].rows| && 0 <= j < |cols[n].rows[i]|
    requires Drawn(cols[n].rows[i][j], vp, cols[n].x + j, cols[n].y + i)
    ensures DotAt(cols[n].rows[i][j], vp, cols[n].x + j, cols[n].y + i) in FrameDotsAsWritten(cols, vp)
    decreases |cols|
  {
    assert FrameDotsAsWritten(cols, vp) == ColonyDotsAsWritten(cols[0], vp) + FrameDotsAsWritten(cols[1..], vp);
    if n == 0 {
      GridDotsComplete(cols[0].rows, vp, cols[0].x, cols[0].y, i, j);
    } else {
      assert cols[1..][n - 1] == cols[n];
      FrameDotsAsWrittenComplete(cols[1..], vp, n - 1, i, j);
    }
  }

  /** Every circle of the corrected frame is that of a live cell in view, in
      a colony overlapping the viewport. */
  lemma {:induction false} FrameDotsSound(cols: seq<Colony>, vp: Viewport, d: Dot)
    requires d in FrameDots(cols, vp)
    ensures exists n, i, j ::
      0 <= n < |cols| && ColonyOverlaps(cols[n], vp) && GridDotOf(cols[n].rows, vp, cols[n].x, cols[n].y, d, i, j)
    decreases |cols|
  {
    assert FrameDots(cols, vp) == ColonyDots(cols[0], vp) + FrameDots(cols[1..], vp);
    if d in ColonyDots(cols[0], vp) {
      GridDotsSound(cols[0].rows, vp, cols[0].x, cols[0].y, d);
      var i, j :| GridDotOf(cols[0].rows, vp, cols[0].x, cols[0].y, d, i, j);
      assert 0 <= 0 < |cols| && ColonyOverlaps(cols[0], vp);
    } else {
      FrameDotsSound(cols[1..], vp, d);
      var n, i, j :| 0 <= n < |cols[1..]| && ColonyOverlaps(cols[1..][n], vp)
        && GridDotOf(cols[1..][n].rows, vp, cols[1..][n].x, cols[1..][n].y, d, i, j);
      assert cols[1..][n] == cols[n + 1];
    }
  }
}
