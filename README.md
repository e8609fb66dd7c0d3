# Skybox converter, modelled in Dafny

`skybox.py` turns six cube-face images (east, west, south, north, up, down) into
two things:

- one texture atlas, laid out as an unfolded cube:

  ```
      W
    S B N U
      E
  ```

  B is the `down` face. Each face is first turned, then padded with a one-pixel
  border copied from the neighbouring faces so that texture filtering does not
  show seams.
- a cube mesh that samples the atlas: 8 vertices, 6 quads and 24 texture
  coordinates. The coordinates are pulled one pixel into each cell so that the
  padding is never shown.

This project models that pipeline:

| module | covers |
|---|---|
| `Directions` | the face, edge and traversal vocabulary, with the script's numeric encodings |
| `Validation` | the input checks |
| `Orientation` | the per-face turns |
| `EdgeGeometry` | the index arithmetic of `copy_edge` |
| `Adjacency` | the 24-call adjacency table, as written and corrected |
| `Raster` | blank images and `paste` over `array2` buffers |
| `Padding` | `copy_edge` itself and the padded faces |
| `Atlas` | the paste table and the whole image path, for the script's call table or the corrected one |
| `Mesh` | the vertex loop, the quads and the face records |
| `Texture` | the texture-coordinate table and its inset loop |
| `Folding` | how each face edge lies on the cube mesh, and which calls follow it |

Modelling choices:

- Pixels are addressed as the imaging library does: `img[x, y]`, with x the column and y the row. An `array2` is indexed the same way, its first dimension being the width.
- The pixel type is a type parameter.
- The fill of a new image is a parameter `blank`.
- Validation forces the faces to be square, so one side length `d` is used throughout. The padded side is `p = d + 2`.
- Texture coordinates are exact `real`s.

## Model

| member | source | states |
|---|---|---|
| `Directions.Direction.Index` | skybox.py:20-27 | each face has its position 0..5 in the list of loaded images, and that position decodes back to the face |
| `Directions.Edge.Code` | skybox.py:74-85 | edges are numbered left = 0, right = 1, up = 4, down = 5 (reusing the direction numbers), and every code decodes back to its edge |
| `Directions.Traversal.Flag` | skybox.py:102-105 | the traversal is passed as 0 or 1, and it is 1 exactly for a reversed walk |
| `Validation.FirstMismatch` | skybox.py:40-46 | the first face at or after a position that differs from face 0 in mode or size: every face before it matches, and it does not |
| `Validation.Validate` | skybox.py:33-46 | accepted iff face 0 is square and every face has face 0's mode and size (the accepted side is face 0's); non-square is reported iff face 0 is not square; otherwise the first mismatching face is reported, as a mode error when its mode differs and as a size error only when its mode matches |
| `Validation.CheckFaces` | skybox.py:33-46 | the check loop (squareness, then per face the mode before the size, stopping at the first failure) returns exactly `Validate` |
| `Validation.MismatchRefuses` | skybox.py:40-46 | any face differing from face 0 makes the set fail, at that face or an earlier one |
| `Validation.ValidIsPermutationInvariant` | skybox.py:40-46 | with face 0 fixed, reordering the other faces does not change whether the set is accepted |
| `Orientation.Rotation.Inverse` | skybox.py:57-66 | the inverse turn adds up to a multiple of 360 degrees |
| `Orientation.RotatedFrom` | skybox.py:57-66 | a turned d-by-d face reads every pixel from inside the original face |
| `Orientation.RotationIsPermutation` | skybox.py:57-66 | turning and turning back restores every position, in both orders, so a turn only moves pixels |
| `Orientation.QuarterTurnsCompose` | skybox.py:57-66 | two quarter turns are a half turn, and two half turns are none |
| `Orientation.Rotate` | skybox.py:58-66 | the turned copy is a fresh d-by-d image whose pixel (x, y) is the original's pixel at `RotatedFrom` |
| `Orientation.OrientFaces` | skybox.py:57-66 | the list entries are reassigned so that face k is its original turned by its table angle (East 180, South 90, North/Up/Down 270); West is the very same image |
| `EdgeGeometry.DestPixel` | skybox.py:78-85 | the (de, dx) arithmetic at step i writes position i + 1 of the chosen border line of the (d + 2)-square buffer; that pixel lies on the line, off the corners, and has step i |
| `EdgeGeometry.SrcPixel` | skybox.py:87-94 | the (se, sx) and traversal-flag arithmetic at step i reads position i (forward) or d - 1 - i (reverse) along the chosen source edge; the read is inside the d-by-d face |
| `EdgeGeometry.DestPixelOnto` | skybox.py:99-101 | every pixel of a border line (without corners) is written at its own step |
| `EdgeGeometry.DestPixelInjective` | skybox.py:99-101 | two steps never write the same pixel, so exactly d pixels are written |
| `EdgeGeometry.SrcPixelInjective` | skybox.py:102-105 | the d reads visit d distinct pixels of the source edge |
| `EdgeGeometry.BordersDisjoint` | skybox.py:78-85 | the border lines of two different edges share no pixel |
| `EdgeGeometry.BorderEdgeAt` | skybox.py:78-85 | classifies a pixel under the edge whose border line holds it, or under none when no line holds it |
| `EdgeGeometry.BorderEdgeAtOnBorder` | skybox.py:78-85 | a border pixel is classified under its own edge |
| `EdgeGeometry.PaddedPartition` | skybox.py:108-111 | every pixel of a padded buffer is interior (where the face is pasted), on exactly one border line, or a corner, and no pixel is two of these |
| `Padding.CopyEdge` | skybox.py:77-106 | after the loop, each pixel of the destination border line holds the source pixel read at its step, and every other pixel keeps its old value |
| `Padding.StepsCoverBorder` | skybox.py:99-106 | once each of the d steps has written its pixel, every pixel of the border line holds the source pixel of its own step |
| `Raster.NewImage` | skybox.py:108 | a new image is a fresh width-by-height buffer holding the fill everywhere (also skybox.py:164) |
| `Raster.Paste` | skybox.py:110-111 | pasting writes the source at the offset and leaves every other pixel of the destination as it was (also the six pastes of skybox.py:166-177) |
| `Padding.BlankBuffers` | skybox.py:108 | six fresh, distinct (d + 2)-square buffers of the blank fill |
| `Padding.PasteFaces` | skybox.py:110-111 | face m is pasted at (1, 1) into buffer m; border and corners stay blank |
| `Padding.FillBorders` | skybox.py:113-153 | for any laid-out table (the script's `Calls()` included), running its calls in any order that makes each of the 24 calls at least once (repeats included) gives the same padded faces, namely `PaddedPixel` |
| `Padding.MakeCall` | skybox.py:115-153 | one call of the table takes the padded faces from the state after the calls already made to the state after those and this one |
| `Padding.OneMoreCall` | skybox.py:99-106 | making one more call changes a partially padded face exactly on the border line that call writes, to the values it reads |
| `Padding.PadFaces` | skybox.py:108-153 | padded face k holds face k at offset (1, 1), on each border line the pixel its call in the given table reads from the neighbouring face, and blank corners; with `Calls()` this is the script's padding |
| `Padding.BorderPixelReadsSource` | skybox.py:99-106 | after padding with a laid-out table, border pixel i + 1 of an edge holds the source face's pixel at the read position of step i (i forward, d - 1 - i in reverse) on the source edge |
| `Adjacency.Calls` | skybox.py:113-153 | the 24 calls as written, in the script's order |
| `Adjacency.FixedCalls` | skybox.py:113-153 | the 24 calls with the traversal of the East-bottom and Up-bottom calls reversed (see Findings) |
| `Adjacency.FixedCallsDifferOnlyInTwoTraversals` | skybox.py:115-153 | the corrected table equals the written one except at positions 3 and 19 (skybox.py:118 and 146), where a forward walk becomes a reverse walk |
| `Adjacency.CallIndex` | skybox.py:113-153 | each (face, edge) pair has a position below 24 in the table |
| `Adjacency.CallIndexInjective` | skybox.py:113-153 | distinct (face, edge) pairs have distinct positions |
| `Adjacency.WrittenCallsLaidOut` | skybox.py:113-153 | the script's call at position k fills the (face, edge) pair whose position is k: four calls per face, faces in list order, edges left, right, up, down |
| `Adjacency.TablesLaidOut` | skybox.py:113-153 | both the script's table and the corrected one are laid out that way |
| `Adjacency.CallFor` | skybox.py:113-153 | the call a laid-out table holds for (face, edge) is one of its calls and fills exactly that edge of that face |
| `Adjacency.EachEdgeFilledOnce` | skybox.py:113-153 | in any laid-out table, the script's included, call k fills edge e of face dir iff k is that pair's position, so each of the 24 pairs is filled exactly once |
| `Adjacency.WrittenCallsSymmetric` | skybox.py:113-153 | in the script's table, the call that fills the source edge of call k reads back call k's destination edge with the same traversal |
| `Adjacency.FixedCallsSymmetric` | skybox.py:113-153 | the same for the corrected table |
| `Adjacency.Symmetric` | skybox.py:113-153 | in both tables, if edge e of A is filled from edge f of B with traversal t, then edge f of B is filled from edge e of A with the same t |
| `Adjacency.WrittenNeighbours` | skybox.py:113-153 | in the script's table a face's four edges come from four different faces, never from itself or from its opposite face |
| `Adjacency.NeighboursAreTheFourAdjacentFaces` | skybox.py:113-153 | the same in both tables |
| `Atlas.AtlasCell` | skybox.py:164-177 | each face's cell lies in the 4-by-3 grid |
| `Atlas.CellsDistinct` | skybox.py:164-177 | no two faces share a cell |
| `Atlas.OwnerAt` | skybox.py:164-177 | finds the face whose cell holds an atlas pixel, or no face when no cell holds it |
| `Atlas.OwnerOfCell` | skybox.py:164-177 | a pixel in a face's cell is owned by that face, because cells do not overlap |
| `Atlas.ComposeAtlas` | skybox.py:164-177 | the atlas is a fresh 4p-by-3p image; each pixel holds the owning face's padded pixel at its offset in the cell, or blank when no face owns it |
| `Atlas.PasteFace` | skybox.py:166-177 | one literal paste writes exactly its face's cell, moving the atlas on by one of the six stages |
| `Atlas.CellWithinAtlas` | skybox.py:164 | every cell lies inside the 4p-by-3p atlas |
| `Atlas.FaceInItsCell` | skybox.py:164-177 | each padded face appears whole in its cell |
| `Atlas.UnusedCellsBlank` | skybox.py:164 | the six cells that hold no face stay blank |
| `Atlas.BuildAtlas` | skybox.py:57-177 | turning, padding with the given table and stitching give a fresh 4(d + 2)-by-3(d + 2) atlas; each face's cell holds its padded, turned face, and every pixel outside the six cells is blank; the script is this method with the table as written, `Calls()` |
| `Atlas.PaddedFaceInItsCell` | skybox.py:155-177 | the atlas shows padded face `dir` in the cell of `dir` |
| `Atlas.SeamsAreLayoutNeighbours` | skybox.py:50-53 | the listed seams are exactly the cells that touch in the layout, with the middle row wrapping from U back to S: every listed pair touches, and every touching pair is listed |
| `Atlas.HorizontalSeamCalls` | skybox.py:115-153 | in both tables, across each middle-row seam the left face's right edge and the right face's left edge fill each other, walking forward |
| `Atlas.VerticalSeamCalls` | skybox.py:115-153 | the same for the top and bottom edges across the two middle-column seams |
| `Atlas.SideBySideBordersAgree` | skybox.py:99-106 | when two faces' facing left and right edges fill each other forward, each padding pixel of the seam repeats the first real pixel on the other side |
| `Atlas.StackedBordersAgree` | skybox.py:99-106 | the same for facing top and bottom edges |
| `Atlas.HorizontalSeamContinuous` | skybox.py:115-153 | with either table, across each middle-row seam, each padding pixel repeats the first real pixel on the other side |
| `Atlas.VerticalSeamContinuous` | skybox.py:115-153 | the same across the two middle-column seams |
| `Mesh.CornerOfLoop` | skybox.py:190-193 | step (a, b, c) of the three nested sign loops is row 4a + 2b + c of the corner table |
| `Mesh.EmitVertices` | skybox.py:190-193 | the vertex loop emits exactly the corner table RUB..LDF |
| `Mesh.CornersAreTheCube` | skybox.py:274-282 | the 8 vertices have coordinates ±1, are pairwise distinct, and are all 8 corners of the cube |
| `Mesh.Quads` | skybox.py:284-291 | six quads of four indices each |
| `Mesh.QuadsWellFormed` | skybox.py:284-291 | every quad names four distinct vertices in 1..8 |
| `Mesh.QuadPlane` | skybox.py:284-291 | each quad's plane fixes one coordinate at ±1 |
| `Mesh.QuadsArePlanar` | skybox.py:284-291 | the four corners of each quad share the quad's fixed coordinate |
| `Mesh.PlanesDistinct` | skybox.py:284-291 | the six quads lie in six different planes x, y, z = ±1 |
| `Mesh.QuadSidesAreCubeEdges` | skybox.py:284-291 | consecutive corners of each quad differ in exactly one coordinate, so no side runs across a diagonal |
| `Mesh.CountContainingIsSetSize` | skybox.py:284-291 | the running count of the quads that contain a vertex is the size of the set of those quads |
| `Mesh.EachVertexInThreeQuads` | skybox.py:284-291 | every vertex is a corner of exactly three quads: the set of quads containing it has three elements |
| `Mesh.TurnNormalAgainstCorner` | skybox.py:211 | the turn normal (b - a) x (c - b), measured along a, is the determinant of a, b, c |
| `Mesh.QuadsFaceInward` | skybox.py:284-291 | at every corner of every quad the turn normal points towards the cube's centre, so all quads are wound the same way and face the viewer inside |
| `Mesh.EmitFaceRecords` | skybox.py:293-301 | quad j, corner i gets vertex `Quads()[j][i]` and texture index 1 + 4j + i; each index 1..24 is used by exactly one corner |
| `Texture.UvCell` | skybox.py:195-209 | each face's texture cell is its atlas cell with the row flipped (v grows upward) |
| `Texture.UvTable` | skybox.py:212-243 | the 24 literal coordinates |
| `Texture.TableIsCellCorners` | skybox.py:195-243 | entry 4g + c is corner c (right-top, left-top, left-bottom, right-bottom) of the texture cell of group g's face (W, S, B, N, U, E) |
| `Texture.GroupSlots` | skybox.py:248-256 | the loop's four writes for group i are exactly the entries of group i |
| `Texture.InsetUvs` | skybox.py:245-256 | after the loop, entry 4g + c is corner c of group g's cell moved in by 1/(4w) in u and 1/(3h) in v |
| `Texture.InsetOnPixelLines` | skybox.py:156-157 | with the padded w, h, each inset side lies on a pixel line of the atlas: one pixel inside the cell's start and one pixel before its end |
| `Texture.InsetColumnsOfFace` | skybox.py:246-256 | a pixel column of a cell lies between the inset left and right sides iff it is one of the face's d columns |
| `Texture.InsetRowsOfFace` | skybox.py:246-256 | the same for rows |
| `Texture.InsetShowsExactlyTheFace` | skybox.py:245-256 | the inset rectangle covers exactly the d-by-d pixels where the face was pasted: every face pixel and no padding |
| `Texture.InsetNonEmpty` | skybox.py:246-256 | the inset rectangle is strictly inside its cell, which lies in [0, 1]²; it has positive width iff w > 2 and positive height iff h > 2 |
| `Texture.CornersCounterClockwise` | skybox.py:211 | the corner order right-top, left-top, left-bottom, right-bottom is counter-clockwise around any rectangle of positive size |
| `Texture.InsetTableCounterClockwise` | skybox.py:211-256 | every inset group stays counter-clockwise whenever the faces have at least one pixel |
| `Texture.SharedCornersAgree` | skybox.py:261-291 | a vertex shared by two quads whose texture cells share a side gets the same texture coordinate in both |
| `Texture.WrapSeamAgrees` | skybox.py:261-291 | across the U-S wrap of the middle row, a shared vertex gets the same v and u values exactly 1 apart |
| `Folding.GroupOf` | skybox.py:212-243 | the texture group (and quad) that shows each face, the inverse of the W, S, B, N, U, E group order |
| `Folding.EndCornersOnEdge` | skybox.py:99-105 | those corners lie on the side of the cell the edge names; steps start at the top of a column and at the left of a row |
| `Folding.EdgeEnds` | skybox.py:284-301 | each face edge runs between two distinct mesh vertices |
| `Folding.EdgeEndsAreQuadCorners` | skybox.py:284-301 | those vertices are the face's quad corners at the edge's end corners, as the face records pair quad corners with texture corners |
| `Folding.WrittenCallsFoldExceptEastUp` | skybox.py:113-153 | a call of the written table reads from the same cube edge, starting at the same cube corner, iff it is not one of the two calls at positions 3 and 19 |
| `Folding.EastUpSeamIsReversed` | skybox.py:118 | East's bottom edge runs RUB to RUF and Up's bottom edge RUF to RUB, yet this call and its partner at skybox.py:146 both walk forward |
| `Folding.FixedCallsFoldOntoMesh` | skybox.py:113-153 | every call of the corrected table reads from the same cube edge, starting at the same cube corner |
| `Folding.CallSourceSharesCubeEdge` | skybox.py:113-153 | the face each call reads from is another face on the same cube edge |
| `Folding.CubeEdgeHasTwoFaces` | skybox.py:113-153 | any edge of another face on that cube edge is the edge the table reads from |
| `Folding.BorderRepeatsCubeNeighbour` | skybox.py:108-153 | after padding with the corrected table, the border pixel at step i of an edge is the pixel of the face across that cube edge at the same distance from the same cube corner |
| `Folding.WrittenPaddingMirrorsEastUpSeam` | skybox.py:118 | with the script's table, East's bottom border pixel at step i is Up's bottom-edge pixel i; with the corrected table it is Up's pixel d - 1 - i, the one the cube puts there |

## Left out

- Command-line handling (skybox.py:9-14): argv, the usage message and `exit(1)`.
- Image decoding and encoding are foreign calls:
  - `Image.open(...).convert('RGB')` (skybox.py:28-29);
  - `load()` (skybox.py:96-97);
  - `save()` (skybox.py:180).
  Faces arrive as `array2` values.
- `Orientation.RotatedFrom` is an assumption, not a model of the library. The pixel semantics of `transpose(ROTATE_*)` (skybox.py:58-66) are foreign, so `RotatedFrom` is this model's own counter-clockwise index map. Only the face staying d by d is taken from the script.
- `Image.new('RGB', ...)` fills black (skybox.py:108, 164). The model takes the fill as the parameter `blank`.
- The OBJ and MTL files are text the model does not produce (skybox.py:184-189, 258-259, 295-309). The vertices, texture coordinates and face records are modelled as data.
- UV values are printed with `%f`. That float rounding is not modelled: the values are exact rationals.
- `print` progress messages are left out.
- The single side `d`:
  - `Padding.CopyEdge` requires a square source and a destination 2 pixels larger.
  - The script mixes `w` and `h` (skybox.py:81, 85, 90, 94, 99-105), which agrees only because validation forces w == h.
  - `Texture.InsetUvs` keeps w and h apart, as the script does.
- `Validation.Validate` names the offending face as its position in the list. The script's messages (skybox.py:37, 42, 45) do not name it, and the exit is a process exit.
- `Validation.Validate`: every face is converted to RGB on load (skybox.py:29), so in the script the mode check cannot fail. The model keeps it as written.
- `Validation.Validate` has no `MissingOrUnreadableFace` error. Loading is foreign.
- `Folding.BorderRepeatsCubeNeighbour` is stated for the corrected table `Adjacency.FixedCalls` only: with the script's table `Adjacency.Calls` it fails on the East/Up seam (see Findings).

## Findings

The border of East's bottom edge and of Up's bottom edge is read in the wrong order. By the script's own vertex layout (skybox.py:261-272, 284-291), East's bottom edge runs from RUB to RUF and Up's bottom edge from RUF to RUB, so each must read the other in reverse. Both calls walk forward, so each border pixel of that seam repeats the pixel at the mirrored position.

| source | as written | input that shows it | evidently intended | confidence | as-written member | corrected member |
|---|---|---|---|---|---|---|
| skybox.py:118 | `copy_edge(newfaces[east], down, faces[up], down, 0)` and its partner at skybox.py:146, `copy_edge(newfaces[up], down, faces[east], down, 0)`, walk forward | any d ≥ 2: East's padded pixel (1, d + 1), next to RUB, gets Up's pixel (0, d - 1), which is next to RUF | traversal 1 in both calls, so the pixel next to RUB comes from Up's pixel (d - 1, d - 1), also next to RUB | high; not executed | `Folding.WrittenCallsFoldExceptEastUp`, `Folding.EastUpSeamIsReversed`, `Folding.WrittenPaddingMirrorsEastUpSeam` | `Adjacency.FixedCalls`, `Folding.FixedCallsFoldOntoMesh`, `Folding.BorderRepeatsCubeNeighbour` |
