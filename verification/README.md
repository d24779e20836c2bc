# LifeCells: colonies, row loading and the viewport

LifeCells shows "colonies" of Game-of-Life cells living in a shared space.
Two Python files make up the core modelled here:

- `colony.py` holds the data. A space is `[name, age, colony, ...]`. A colony is
  `[[age, x, y, w, h], rows]`. A cell is `[age, [8 neighbour flags]]`.
  The file has the operations that create a space and add a colony to it. It has
  the row loader, which builds an unaged colony from strings of `'0'` and `'1'`.
  It also has the text display of a colony.
- `lifecells.py` is the pygame viewer. Its viewport is a window onto the space,
  measured in cells. The integer logic behind it is modelled: the extent of the
  space, centring the viewport on the active colony, refitting it to the screen,
  the scroll clamp, the active-colony index and which cells a frame draws, in
  which colour.

The Dafny project has two modules:

- `Colonies` (`colony.dfy`) holds the `Cell`, `Colony` and `Space` datatypes,
  plus `NewSpace`, `AddColony`, `LoadRow` and `DisplayChar`/`DisplayRow`.
  `LoadRows` is the start-up loop that calls `load_row` once per string
  (colony.py:214-215); the lemmas about it have rows of their own. Its
  lemmas relate the loader to an independent reader. `Encode` reads a row back
  as a `'0'`/`'1'` string, and `Holds` says a colony holds exactly a given list
  of row strings.
- `LifeCells` (`lifecells.dfy`) holds the viewport record and its operations. It
  takes the screen size as a parameter. It models a frame as the sequence of
  circles (`Dot`s) the drawing loop would draw. `ColonyVisible` transcribes
  the drawing code's four-corner colony test (lifecells.py:298-321);
  `CornerTestMeaning` states what it means.

Python's `int(a / b)` on integers truncates toward zero. It is modelled exactly
by `TruncDiv`, for negative values too. Dafny's own `/` is Euclidean, so it
is not used for this.

## Model

| member | source | states |
|---|---|---|
| Colonies.NewSpace | colony.py:59-71 | An empty name is a configuration error. Any other name gives a space with that name, age 0 and no colonies. |
| Colonies.AddColony | colony.py:75-90 | Appends one colony and leaves the earlier colonies untouched. The new colony has age 0, the given origin, width and height 0 and no rows. |
| Colonies.OnlyBinaryChars | colony.py:135-137 | The loader's set test, "the row's characters minus {'0','1'} is empty", holds iff every character is '0' or '1'. |
| Colonies.LoadRow | colony.py:119-164 | An aged colony, an empty row or a row with a character other than '0'/'1' leaves the colony unchanged. On success: age, x and y are kept; h grows by 1 and the new row is last; w becomes max(w, len(row)). A rectangular grid stays rectangular. New cell k is alive (age 1) iff row[k] is '1'. Padding cells, at the end of the new row and appended to older rows, are empty. Older cells keep their age and position. Every new cell has eight cleared neighbour flags. |
| Colonies.LoadRowHolds | colony.py:139-164 | Loading an accepted row into a colony holding strings S leaves it holding S + [row], each string padded with '0' to the new width. A rejected row leaves it holding S. |
| Colonies.LoadRowsHolds | colony.py:214-215 | Loading a list of rows one by one into an unaged colony appends exactly the accepted rows, in order, each padded with '0' to the final width. Rejected rows leave no trace. |
| Colonies.LoadRowsShape | colony.py:214-215 | Loading a list of rows keeps an unaged colony unaged, rectangular and at its origin. Its width becomes the longer of its old width and the longest accepted row, and its height grows by the number of accepted rows. |
| Colonies.LoadIntoNewColony | colony.py:204-215 | The start-up sequence: a new space, a colony added to it, then rows of different lengths loaded into that colony. The colony stays unaged and in place. Every accepted row, and no rejected one, is held, padded with '0' to the longest accepted row. Height is the number of accepted rows. |
| Colonies.DisplayChar | colony.py:182-187 | An empty cell prints as a blank. Ages 1 to 9 print as their digit, and age 10 or more prints as '0'. |
| Colonies.DisplayRow | colony.py:179-188 | One printed line has one character per cell. A character is blank exactly where the cell is empty, and a digit wherever it is alive: the age itself up to 9, '0' from 10 on. |
| Colonies.DisplayLoadedRow | colony.py:148-187 | A freshly loaded row prints as its row string with '0' blanked. Its padding prints as blanks. |
| LifeCells.TruncDiv | lifecells.py:129-130 | `int(a / d)` is division truncated toward zero. For a ≥ 0, q·d ≤ a < q·d + d. For a < 0, q·d − d < a ≤ q·d. |
| LifeCells.SpaceSize | lifecells.py:358-373 | A space with no colonies has size (0, 0). Otherwise the width is the maximum of x + w over the colonies, and of 0. The height is likewise the maximum of y + h and 0. |
| LifeCells.CenterOn | lifecells.py:114-145 | An active index outside the colony list puts the origin at (0, 0). For a valid index, vx + vw ≤ ws and vy + vh ≤ hs. Where the viewport fits (vw ≤ ws), vx ≥ 0 and vx is the admissible origin nearest the one that centres the colony. Where it is wider than the space, vx = ws − vw, a negative origin (likewise y). The size is unchanged. |
| LifeCells.CenterOnSettled | lifecells.py:114-145 | Centring depends only on the viewport's size, so centring a second time on the same colony changes nothing. |
| LifeCells.UpdateSize | lifecells.py:149-178 | vw is the number of whole 10-pixel cells between the east and west margins (vh likewise). The origin first moves by half the change in size. If that origin lies within the space it is kept, and the centre moves by at most half a cell. A negative one becomes 0, and one that runs more than a cell past the far edge becomes ws − vw. Afterwards vx + vw − 1 ≤ ws, and vx ≥ 0 when vw ≤ ws (likewise y). |
| LifeCells.RefitOrigin | lifecells.py:164-178 | One axis of a refit: an origin that lies within the space after moving by half the change in size is kept, and the centre moves by at most half a cell. Otherwise it is clamped to 0 or to the far edge, and never ends more than one cell past the far edge. |
| LifeCells.ViewportInit | lifecells.py:182-204 | A new viewport has as many whole cells as fit between the margins, in both directions. It is centred on the active colony: recentring changes nothing, and where it fits its origin is the admissible one nearest the centred one. A valid active index keeps it within the space's far edges, and any other index puts it at (0, 0). |
| LifeCells.ApplyShift | lifecells.py:889-911 | Both pending shifts are cleared. With no shift, nothing changes. With any shift, an axis where the viewport is at least as large as the space goes to 0. A shift that stays in bounds moves the viewport by exactly that much. A shift past the near edge stops at 0, and one past the far edge stops at ws − vw. An unshifted axis keeps its origin. `ApplyShift` preserves the property `AxisPlaced`: on each axis the origin is 0 when the viewport is at least as large as the space, and otherwise lies between 0 and one cell past the far edge. Centring and refitting do not establish this property. For example, the start-up viewport of `CornerTestSkipsWideColony` has y = −38. |
| LifeCells.SelectPrevious | lifecells.py:797-800 | 'p' never moves the index below 0: an index of 0 or below becomes 0. It steps back by one when it can. |
| LifeCells.SelectNext | lifecells.py:803-806 | 'n' never moves the index above the last colony. It keeps a valid index valid, steps forward by one when it can, stays on the last colony, and 'p' undoes it. |
| LifeCells.AfterDay | lifecells.py:872-880 | With no colony left the viewer stops. An unchanged colony count keeps the index. A changed count moves an index past the end to exactly the last colony and keeps any other. A valid index stays valid. |
| LifeCells.AfterDayNearest | lifecells.py:876-880 | After a day that changed the colony count, a non-negative index becomes the valid index nearest to it. |
| LifeCells.NewDay | lifecells.py:872-883 | A new day stops the viewer exactly when no colony is left. An unchanged count leaves index and viewport alone. A changed count pulls the index back as `AfterDay` does, resizes the viewport as `UpdateSize` does and leaves it centred on the active colony. The margins are never changed. A valid index stays valid. |
| LifeCells.ColourIndex | lifecells.py:337-340 | The palette slot is below 10, so indexing the 10-colour palette is safe. It equals the age up to 9 and is 0 above. It is the digit the text display prints for the same age. |
| LifeCells.CornerTestMeaning | lifecells.py:294-321 | The drawing code's colony test holds iff one of the colony's four corners lies in the viewport. |
| LifeCells.OverlapAdmits | lifecells.py:294-321 | The corrected test (see Findings) admits every colony of non-zero size that the corner test admits, and every colony with a cell of its rectangle in the viewport. |
| LifeCells.RowDots | lifecells.py:324-340 | Every circle of a row fills a cell of the viewport (column sx − vx, row sy − vy) and has a palette colour. There are at most as many circles as the row has cells. |
| LifeCells.RowDotsOrdered | lifecells.py:324-335 | The circles of a row run left to right, at most one per cell of the row, all in the columns the row covers and on the row's own line of the viewport. |
| LifeCells.GridDots | lifecells.py:322-340 | Every circle of a colony grid fills a cell of the viewport and has a palette colour. |
| LifeCells.FrameDots | lifecells.py:294-340 | The corrected frame (see Findings), which scans every colony overlapping the viewport: every circle fills a cell of the viewport and has a palette colour. |
| LifeCells.FrameDotsAsWritten | lifecells.py:294-354 | The frame as the drawing code computes it, scanning only colonies with a corner in view: every circle fills a cell of the viewport and has a palette colour. |
| LifeCells.PixelCentre | lifecells.py:348-354 | A circle of radius 5 centred at k·10 + 5 stays inside the k-th 10-pixel cell. |
| LifeCells.DotsFitSurface | lifecells.py:289-354 | When the viewport is no larger than the drawing surface, as `update_vport_size` makes it, every circle of the frame as drawn, and of the corrected frame, lies wholly on that surface. |
| LifeCells.RowDotsComplete | lifecells.py:324-335 | A live cell of a row inside the viewport gets its circle. |
| LifeCells.RowDotsSound | lifecells.py:324-335 | Every circle of a row belongs to a live cell of that row inside the viewport. |
| LifeCells.GridDotsComplete | lifecells.py:322-335 | Every live cell of a grid inside the viewport gets its circle, in viewport cell (sx − vx, sy − vy) with its age's colour. |
| LifeCells.GridDotsSound | lifecells.py:322-335 | Every circle drawn for a grid is that of a live cell inside the viewport. Dead cells and cells outside are never drawn. |
| LifeCells.ColonyDotsComplete | lifecells.py:294-335 | With the overlap test, every live cell in view of a rectangular colony is drawn. |
| LifeCells.FrameDotsComplete | lifecells.py:294-335 | With the overlap test, every live cell of every rectangular colony inside the viewport is drawn. |
| LifeCells.FrameDotsSound | lifecells.py:294-335 | Every circle of the corrected frame is that of a live cell in view, in a colony overlapping the viewport. |
| LifeCells.FrameDotsAsWrittenSound | lifecells.py:294-335 | Every circle of the frame as drawn is that of a live cell in view, in a colony with a corner in view. |
| LifeCells.FrameDotsAsWrittenComplete | lifecells.py:294-335 | In the frame as drawn, every live cell in view of a colony with a corner in view gets its circle. |
| LifeCells.CornerTestSkipsCoveringColony | lifecells.py:294-321 | An illustration on a viewport smaller than the program ever uses: a 3×3 colony at (0, 0) with its centre alive, seen through a 1×1 viewport at (1, 1): the corner test rejects it, yet its centre cell is alive and in view, and the overlap test admits it. |
| LifeCells.SpanningColonySkipped | lifecells.py:294-321 | A colony reaching past the viewport on both sides of one axis has no corner in view, so the frame as written draws none of its cells. |
| LifeCells.AsWrittenMissesSpanningColony | lifecells.py:294-354 | For such a colony, a live cell in view is missing from the frame as written and present in the corrected frame. |
| LifeCells.CornerTestSkipsWideColony | lifecells.py:182-354 | A 100×1 colony at (0, 0), alive only in column 50, opened on a 700×500 screen: the viewport is 67×39 at (17, −38), the live cell is in view, the frame as written is empty and the corrected frame draws the cell. |

## Left out

- `update`, `next_day`, `load_from_file` and `add_colony(space, rows)`. `update` is an empty stub in `colony.py`. The other three are called from `lifecells.py` but not defined in `colony.py`. So there are no Life rules, no bounding-box trimming and no merging to model.
- Random colony placement. `AddColony` takes x and y as parameters instead of drawing them from `random.random()`.
- `print` and `sys.exit`. A rejected row is modelled as "the colony is returned unchanged". An empty space name gives `None`.
- All pygame drawing, fonts, surfaces, the event loop, timers, speed steps, the help window and fullscreen toggling. Also screen sizes (passed in as parameters), logging and file I/O.
- The floating-point scaling for the minimap, the scrollbars, mouse dragging and minimap clicks (`draw_minimap`, `get_hrunner_pos`, `get_vrunner_pos`, and the mouse handling in `run`).
- LifeCells.TruncDiv: models `int(a / b)` as exact truncation of the true quotient. A float's rounding for integers beyond 2^53 is not modelled.
- The colony's `age`, `w` and `h`, and each cell's `age`, are typed `nat`. The code shown never makes them negative. `DisplayChar` and `ColourIndex` rely on this. In the Python, a negative cell age would print as "-1" and would index the palette from its end (`c_Cell[-1]`).
- The recentring that follows 'p' and 'n' (lifecells.py:801 and 807) is `CenterOn` applied to the new index. It is not a separate member.
- The key handlers that only recentre (`SPACE`), the quit key and the per-key shift increments (±1, ±10) are not modelled separately. `ApplyShift` takes the accumulated shifts as integers.

## Findings

| source | as written | input that shows it | evidently intended | confidence | as-written member | corrected member |
|---|---|---|---|---|---|---|
| lifecells.py:294-321 | A colony's cells are only scanned when one of its four corners lies in the viewport. | A single 100×1 colony at (0, 0), alive only in column 50, on a 700×500 screen: the first viewport is 67×39 at (17, −38), so the live cell is in view but neither end of the colony is. More generally, any colony that reaches past the viewport on both sides of one axis. No corner is in view, so none of its cells is drawn. | Scan a colony whenever its rectangle overlaps the viewport, so that every live cell in view is drawn. | high, not executed | LifeCells.FrameDotsAsWritten, LifeCells.SpanningColonySkipped, LifeCells.CornerTestSkipsWideColony | LifeCells.FrameDots, LifeCells.OverlapAdmits, LifeCells.FrameDotsComplete |

`FrameDotsAsWritten` is the drawing code's frame. `FrameDots` is the corrected frame: it uses the overlap test, and the lemmas about a complete frame are stated for it. Both share the cell-level test inside the loop, which is modelled as written in `RowDots`.

The source also bounds the far edge differently in different places. `vport_center_on` keeps vx + vw ≤ ws. `update_vport_size` and the scroll clamp in `run` allow vx + vw − 1 ≤ ws, which is one cell past the space. Each operation is modelled as written.
