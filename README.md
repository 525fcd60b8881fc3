# OsmGlobe tile layer, modelled in Dafny

OsmGlobe wraps OpenStreetMap tiles around a SceneKit globe. The texture
comes from `TilesLayer`, a `CATiledLayer` that paints 256×256-point tiles.
This project models its two pieces of integer and string logic:

- **`urlFor(x:y:z:)`** turns a template into a tile URL.
  - It finds the first `{switch:h1,...,hn}` directive, splits the directive's body on commas, and picks host `(x + y) % n`.
  - It splices that host over the whole directive.
  - It then replaces every `{x}`, `{y}` and `{z}` with the decimal rendering of the number.
  - It ends with `URL(string:)!`.
- **`draw(in:)`** runs one drawing pass.
  - It derives the zoom level from the layer width.
  - It walks the tiles of the clip box column by column, each column from its lowest row up.
  - It builds each tile's URL and fetches the image.
  - When the image arrives, it draws it into the tile's 256-point rectangle, with the row flipped when the context scale exceeds 1.
  - A failed fetch is skipped.

The modules follow that split:

- `Wrappers`: `Option` and `Result`.
- `Integers`: Swift's 64-bit `Int`, its truncating `%`, and `Int(v / 256.0)`, which rounds toward zero.
- `Strings`: the Foundation operations the source uses.
  - `range(of:)` becomes `Find`.
  - `components(separatedBy:)` becomes `Split`, with `Join` as its inverse.
  - `replacingOccurrences(of:with:)` becomes `ReplaceAll`.
  - `String(Int)` becomes `Decimal`, with `ParseDecimal` as its inverse.
- `TileUrl`: `urlFor` as values.
  - `SwitchStep` is the directive step.
  - `Substitute` is the three placeholder replacements.
  - `UrlText` is the whole URL, or the trap hit on the way.
  - The built-in template and its properties are here too.
- `TileGrid`: the pass as values.
  - `Zoom` is the zoom level.
  - `ClipTiles` and `Grid` are the tiles in loop order.
  - `Place` is where a tile is painted.
  - `Pass` is the requests, draw calls and trap of a whole pass over an environment `Env`. An `Env` holds `urlFor` at the pass's zoom, the top row, the flip flag and the fetch oracle.
- `GlobeImageLayer`: the imperative code.
  - Class `TilesLayer` has methods `UrlFor` and `Draw`. `Draw` uses the helpers `DrawGrid`, `DrawColumn`, `DrawNext` and `DrawTile`.
  - Class `Context` records draw calls.
  - Class `TileServer` records URL requests.
  - Each method is proved equal to the matching value-level function, whose properties are proved as lemmas.

Swift traps are modelled as errors:

- `x + y` overflowing 64 bits gives `AdditionOverflow`.
- A negative `x + y` makes the truncating `%` negative unless `x + y` is a multiple of the host count. A negative index is out of range for `list[...]`, which gives `HostIndexOutOfRange`. A negative multiple, and any sum when there is a single host, gives index 0 and no trap.
- A string that `URL(string:)` rejects gives `MalformedUrl`. Whether a string is a URL is the parameter `isUrl`.

In `Draw` a trap ends the pass. The draw calls and requests made before it remain, and `trapped` reports it. A width ≤ 0 makes `log2` return -inf or NaN, and `Int` of either traps, so `Zoom` is `None` there and the pass traps before drawing anything.

A malformed URL is not treated like a failed fetch. The code force-unwraps it (`URL(string: url)!`, line 78) and so crashes, and the model follows the code.

## Model

| member | source | states |
|---|---|---|
| Integers.TruncRem | OsmGlobe/GlobeImageLayer.swift:71 | Swift's `%` for a positive divisor: the remainder has the sign of the dividend and a magnitude below the divisor |
| Integers.TruncRemCongruent | OsmGlobe/GlobeImageLayer.swift:71 | the truncating remainder differs from the dividend by a multiple of the divisor |
| Integers.TruncDiv | OsmGlobe/GlobeImageLayer.swift:90-91 | `Int(a / n)` rounds toward zero: `q*n <= a < q*n + n` for `a >= 0` and `q*n - n < a <= q*n` for `a < 0` |
| Integers.TruncDivMonotone | OsmGlobe/GlobeImageLayer.swift:90-91 | rounding toward zero is monotone, so a clip box's tile range is never reversed |
| Strings.Find | OsmGlobe/GlobeImageLayer.swift:66-67 | `range(of:)` from a position: the result is the first occurrence at or after it, and `None` exactly when there is none |
| Strings.FindFirst | OsmGlobe/GlobeImageLayer.swift:66-67 | an occurrence at `i` with none between the start and `i` is what `Find` returns |
| Strings.Split | OsmGlobe/GlobeImageLayer.swift:69-70 | `components(separatedBy:)` always yields at least one part, and no part holds the separator, so the `list.count > 0` guard always holds |
| Strings.JoinSplit | OsmGlobe/GlobeImageLayer.swift:69 | joining the parts of a split with the separator gives back the original text |
| Strings.SplitPrefix | OsmGlobe/GlobeImageLayer.swift:69 | separator-free text in front of `t` becomes the front of the first part of `t`'s split, and the other parts are unchanged |
| Strings.SplitJoin | OsmGlobe/GlobeImageLayer.swift:69 | splitting a join of separator-free parts gives back the parts, so a host list is recovered as written |
| Strings.ReplaceAll | OsmGlobe/GlobeImageLayer.swift:75-77 | `replacingOccurrences(of:with:)`, scanning left to right without overlaps; characterised by `ReplaceAllKeepsPrefix`, `ReplaceAllLeavesNone`, `ReplaceAllCreatesNone`, `ReplaceAllSkips` and `ReplaceAllJoin` |
| Strings.ReplaceAllKeepsPrefix | OsmGlobe/GlobeImageLayer.swift:75-77 | a prefix of the result holding no character of the replacement was copied unchanged from the input |
| Strings.ReplaceAllLeavesNone | OsmGlobe/GlobeImageLayer.swift:75-77 | when the replacement shares no character with the pattern, no occurrence of the pattern is left |
| Strings.ReplaceAllCreatesNone | OsmGlobe/GlobeImageLayer.swift:75-77 | replacing one pattern creates no occurrence of another pattern that neither the text nor the replacement can form |
| Strings.ReplaceAllSkips | OsmGlobe/GlobeImageLayer.swift:75-77 | text in which no occurrence starts is copied ahead of the replaced rest |
| Strings.ReplaceAllJoin | OsmGlobe/GlobeImageLayer.swift:75-77 | replacing a borderless pattern in a join of pattern-free parts puts the replacement at every former occurrence and changes nothing else |
| Strings.NatDecimal | OsmGlobe/GlobeImageLayer.swift:75-77 | a natural number is rendered as a non-empty string of digits without a leading zero |
| Strings.Decimal | OsmGlobe/GlobeImageLayer.swift:75-77 | `String(n)` is non-empty and made only of digits and `-` |
| Strings.NatDecimalValue | OsmGlobe/GlobeImageLayer.swift:75-77 | the digits of `n` denote `n` |
| Strings.DecimalRoundTrip | OsmGlobe/GlobeImageLayer.swift:75-77 | reading `String(n)` back gives `n`, so different numbers render differently |
| TileUrl.ShardIndex | OsmGlobe/GlobeImageLayer.swift:71 | the host index is `(x + y) % n`, within `[0, n)`, for a non-negative sum that fits in 64 bits. Any index it gives is below `n` and congruent to `x + y`. It is `AdditionOverflow` exactly when the sum leaves 64 bits, and `HostIndexOutOfRange` only for a negative sum; `NegativeSumShard` says which negative sums trap |
| TileUrl.NegativeSumShard | OsmGlobe/GlobeImageLayer.swift:71 | for a negative sum the subscript traps exactly when `x + y` is not a multiple of the host count; a multiple gives index 0 |
| Integers.NegatedMultiple | OsmGlobe/GlobeImageLayer.swift:71 | `-a` is a multiple of `n` exactly when `a` is, so the sign of the sum does not change whether the remainder is 0 |
| TileUrl.NegativeSumTraps | OsmGlobe/GlobeImageLayer.swift:71 | with more than one host, `x + y == -1` gives index -1 and traps at the list subscript |
| TileUrl.ShardCycles | OsmGlobe/GlobeImageLayer.swift:71 | for non-negative `x`, `y`, the neighbouring tile along either axis uses the next host, cyclically |
| TileUrl.SwitchStep | OsmGlobe/GlobeImageLayer.swift:66-74 | the directive step, or the trap of its subscript; characterised by `SwitchSplice`, `SwitchWithoutOpen`, `SwitchWithoutClose`, `SwitchChoosesHost` and `EmptySwitch`, and by `ApplySwitch`, which runs it in place |
| TileUrl.SwitchSplice | OsmGlobe/GlobeImageLayer.swift:66-74 | with the first `{switch:` after `p` and the first `}` after it, the step keeps `p` and the text after `}` and puts the chosen host of the body's list between them |
| TileUrl.SwitchWithoutOpen | OsmGlobe/GlobeImageLayer.swift:66 | without `{switch:` the text is left unchanged |
| TileUrl.SwitchWithoutClose | OsmGlobe/GlobeImageLayer.swift:67 | without a `}` after the first `{switch:` the text is left unchanged |
| TileUrl.EmptySwitch | OsmGlobe/GlobeImageLayer.swift:69-72 | `{switch:}` is replaced by the empty string, whatever the sign of `x + y` (a single host always gets index 0) |
| TileUrl.DecimalAvoidsPlaceholder | OsmGlobe/GlobeImageLayer.swift:75-77 | `String(n)` shares no character with `{x}`, `{y}` or `{z}`, so inserted digits cannot form a placeholder |
| TileUrl.SubstituteLeavesNoPlaceholder | OsmGlobe/GlobeImageLayer.swift:75-77 | after the three replacements no `{x}`, `{y}` or `{z}` is left |
| TileUrl.UrlHasNoPlaceholder | OsmGlobe/GlobeImageLayer.swift:63-79 | a URL `urlFor` returns holds no `{x}`, `{y}` or `{z}` |
| TileUrl.Substitute | OsmGlobe/GlobeImageLayer.swift:75-77 | the three replacements in the source's order; characterised by `SubstituteFills`, `SubstituteAnyOrder` and `SubstituteLeavesNoPlaceholder` |
| TileUrl.Slot | OsmGlobe/GlobeImageLayer.swift:75 | the placeholder `{c}` for a slot letter `c`; `DecimalAvoidsPlaceholder` and `DecimalInert` show that no decimal can form one |
| TileUrl.Fill | OsmGlobe/GlobeImageLayer.swift:75-77 | a reference definition that fills all placeholders at once in one left-to-right scan; `FillStep` and `SubstituteFills` compare the sequential replacements against it |
| TileUrl.DecimalInert | OsmGlobe/GlobeImageLayer.swift:75-77 | `String(n)` is non-empty and holds no brace and no slot letter |
| TileUrl.FillStep | OsmGlobe/GlobeImageLayer.swift:75-77 | take a filling-at-once whose texts are inert, then replace one more placeholder `{c}`: the result is the filling-at-once with `c` added |
| TileUrl.SubstituteFills | OsmGlobe/GlobeImageLayer.swift:75-77 | the three sequential replacements put `String(x)`, `String(y)` and `String(z)` at every former `{x}`, `{y}` and `{z}` of the text at once, copying every other character |
| TileUrl.SubstituteAnyOrder | OsmGlobe/GlobeImageLayer.swift:75-77 | the three replacements give the same URL in any order |
| TileUrl.UrlText | OsmGlobe/GlobeImageLayer.swift:63-79 | the whole of `urlFor`; characterised by `UrlHasNoPlaceholder`, `DefaultTemplateUrl`, `DefaultTemplateExample` and `TilesLayer.UrlFor` |
| TileUrl.DefaultTemplate | OsmGlobe/GlobeImageLayer.swift:51 | the built-in template; characterised by `DefaultHosts`, `DefaultTemplateHost`, `DefaultSubstitute` and `DefaultTemplateUrl` |
| TileUrl.PlaceholderReplaced | OsmGlobe/GlobeImageLayer.swift:75-77 | each former occurrence of a placeholder holds `String(n)`, and the text between occurrences is unchanged |
| TileUrl.ReplaceOnce | OsmGlobe/GlobeImageLayer.swift:75-77 | one placeholder between texts that cannot hold it becomes the decimal in place |
| TileUrl.SwitchChoosesHost | OsmGlobe/GlobeImageLayer.swift:66-72 | a directive listing hosts `h` is replaced by `h[(x + y) % n]`, with the text around it unchanged |
| TileUrl.OpenNotBefore | OsmGlobe/GlobeImageLayer.swift:66 | no `{switch:` starts inside text without `{` |
| TileUrl.JoinAvoids | OsmGlobe/GlobeImageLayer.swift:69 | a character absent from every part and from the separator is absent from the join |
| TileUrl.DefaultHosts | OsmGlobe/GlobeImageLayer.swift:51 | the built-in directive lists hosts `a`, `b`, `c` |
| TileUrl.DefaultTemplateHost | OsmGlobe/GlobeImageLayer.swift:66-72 | with the built-in template of line 51 the host letter is `"abc"[(x + y) % 3]`: hosts cycle a, b, c as `x + y` grows |
| TileUrl.FillSlots | OsmGlobe/GlobeImageLayer.swift:75-77 | filling the three slots of a placeholder-free layout places each decimal in its own slot |
| TileUrl.DefaultSubstitute | OsmGlobe/GlobeImageLayer.swift:75-77 | with host letter `h` the built-in template of line 51 becomes `https://h.tile.openstreetmap.org/z/x/y.png` |
| TileUrl.DefaultTemplateUrl | OsmGlobe/GlobeImageLayer.swift:63-79 | for non-negative `x`, `y` the built-in template of line 51 gives `https://` + host `"abc"[(x + y) % 3]` + `.tile.openstreetmap.org/z/x/y.png`, or `MalformedUrl` |
| TileUrl.SmallDecimals | OsmGlobe/GlobeImageLayer.swift:75-77 | `String(0)`, `String(1)` and `String(2)` are `0`, `1` and `2` |
| TileUrl.DefaultTemplateExample | OsmGlobe/GlobeImageLayer.swift:63-79 | `urlFor(x: 1, y: 0, z: 2)` with the built-in template of line 51 is `https://b.tile.openstreetmap.org/2/1/0.png` whenever that string is a URL |
| TileGrid.Log2Floor | OsmGlobe/GlobeImageLayer.swift:89 | `floor(log2 n)` is the `r` with `2^r <= n < 2^(r+1)` |
| TileGrid.Log2FloorUnique | OsmGlobe/GlobeImageLayer.swift:89 | that exponent is the only one bracketing `n` |
| TileGrid.Zoom | OsmGlobe/GlobeImageLayer.swift:89 | `Int(log2(width / 256))`, or `None` where that traps; characterised by `ZoomDefined`, `ZoomWide`, `ZoomNarrow` and `ZoomOfGlobeLayer` |
| TileGrid.ZoomDefined | OsmGlobe/GlobeImageLayer.swift:89 | the zoom level exists exactly for a positive width (otherwise `Int(log2(...))` traps) |
| TileGrid.ZoomWide | OsmGlobe/GlobeImageLayer.swift:89 | for width ≥ 256 the zoom level is `k` exactly when `2^k * 256 <= width < 2^(k+1) * 256` |
| TileGrid.ZoomNarrow | OsmGlobe/GlobeImageLayer.swift:89 | for 0 < width < 256 the zoom level is `-k` exactly when `2^k * width <= 256 < 2^(k+1) * width`, since `Int` rounds the negative logarithm toward zero |
| TileGrid.ZoomOfGlobeLayer | OsmGlobe/GlobeImageLayer.swift:89 | the 1024-point tile layer set up at lines 112-117 is drawn at zoom 2 |
| TileGrid.Column | OsmGlobe/GlobeImageLayer.swift:91 | the inner loop visits `hi - lo` tiles, tile `k` being `(x, lo + k)` |
| TileGrid.Grid | OsmGlobe/GlobeImageLayer.swift:90-91 | the tiles of the two nested loops in visiting order; characterised by `GridLength`, `GridMember`, `GridOrdered`, `GridDistinct` and `GridIndex` |
| TileGrid.GridLength | OsmGlobe/GlobeImageLayer.swift:90-91 | the two loops visit `(hiX - loX) * (hiY - loY)` tiles |
| TileGrid.ColumnSplit | OsmGlobe/GlobeImageLayer.swift:91 | a column is its rows below `mid` followed by the rest |
| TileGrid.GridSplit | OsmGlobe/GlobeImageLayer.swift:90 | the grid is its columns below `mid` followed by the rest |
| TileGrid.GridPrefix | OsmGlobe/GlobeImageLayer.swift:90-91 | the tiles visited before `(x, y)` are all earlier columns, then the rows of column `x` below `y` |
| TileGrid.GridMember | OsmGlobe/GlobeImageLayer.swift:90-91 | a tile is visited exactly when `loX <= x < hiX` and `loY <= y < hiY` |
| TileGrid.GridOrdered | OsmGlobe/GlobeImageLayer.swift:90-91 | tiles are visited in strictly increasing x-major, then y, order |
| TileGrid.GridDistinct | OsmGlobe/GlobeImageLayer.swift:90-91 | no tile is visited twice |
| TileGrid.GridIndex | OsmGlobe/GlobeImageLayer.swift:90-91 | visit number `k` is tile `(loX + k / h, loY + k % h)`, with `h` the number of rows |
| TileGrid.TileIndex | OsmGlobe/GlobeImageLayer.swift:90-91 | `Int(v / 256.0)` is `v / 256` for `v >= 0` and rounds toward zero below 0 |
| TileGrid.ClipTiles | OsmGlobe/GlobeImageLayer.swift:90-91 | a tile is visited exactly when its indices lie in the half-open ranges derived from the clip box, and the visits are x-major ordered |
| TileGrid.ClipTilesGrid | OsmGlobe/GlobeImageLayer.swift:90-91 | the ranges of a clip box are never reversed, and its tiles are the grid of those ranges |
| TileGrid.Row | OsmGlobe/GlobeImageLayer.swift:96 | the row a tile is painted in, `hiY - 1 - y` when the context scale exceeds 1; characterised by `PlaceWithin` |
| TileGrid.Place | OsmGlobe/GlobeImageLayer.swift:96-97 | the 256×256 rectangle of a tile; characterised by `PlaceInjective` and `PlaceWithin` |
| TileGrid.PlaceInjective | OsmGlobe/GlobeImageLayer.swift:96-97 | two tiles get the same 256×256 rectangle exactly when they are the same tile, flipped or not |
| TileGrid.PlaceWithin | OsmGlobe/GlobeImageLayer.swift:96-97 | a tile of the range is painted at `x * 256` inside the columns' span; flipped rows lie in `[0, hiY - loY)`, unflipped rows in `[loY, hiY)` |
| TileGrid.TileUrlFor | OsmGlobe/GlobeImageLayer.swift:92 | the URL of a tile at the pass's zoom level; `Draw` ties it to `TilesLayer.UrlFor` |
| TileGrid.Visit | OsmGlobe/GlobeImageLayer.swift:92-100 | one inner iteration on values; characterised by `VisitAppends` and implemented by `TilesLayer.DrawTile` |
| TileGrid.VisitAppends | OsmGlobe/GlobeImageLayer.swift:92-100 | a tile's visit appends its own request and draw to whatever came before |
| TileGrid.Pass | OsmGlobe/GlobeImageLayer.swift:90-102 | a pass makes at most one request per tile and at most one draw per request |
| TileGrid.PassStep | OsmGlobe/GlobeImageLayer.swift:90-102 | one more tile is one more visit unless the pass has trapped |
| TileGrid.PassNextTile | OsmGlobe/GlobeImageLayer.swift:91-100 | visiting tile `(x, y)` after the rows below it extends the pass by that tile's visit |
| TileGrid.PassTrapInColumn | OsmGlobe/GlobeImageLayer.swift:91-101 | a trap at `(x, y)` is where the pass over column `x` ends |
| TileGrid.PassNextColumn | OsmGlobe/GlobeImageLayer.swift:90-102 | the pass after column `x` is the pass over the columns up to `x + 1`, and after a trap it is the whole pass |
| TileGrid.PassTrapFinal | OsmGlobe/GlobeImageLayer.swift:92 | after a trap nothing more is requested or drawn |
| TileGrid.PassPrefix | OsmGlobe/GlobeImageLayer.swift:90-102 | later tiles only append requests and draws after those of earlier tiles |
| TileGrid.PassTrapped | OsmGlobe/GlobeImageLayer.swift:92 | a pass traps exactly when some tile's URL cannot be built |
| TileGrid.PassRequests | OsmGlobe/GlobeImageLayer.swift:92-100 | without a trap every tile's URL is requested, in tile order, failed fetches included, so the loop goes on after a failure |
| TileGrid.PassStopsAtFirstTrap | OsmGlobe/GlobeImageLayer.swift:92 | the first tile whose URL traps ends the pass with what the tiles before it produced |
| TileGrid.PassDrawsSound | OsmGlobe/GlobeImageLayer.swift:93-100 | every draw call paints an image actually fetched for a tile of the pass at that tile's place, so a failed fetch draws nothing |
| TileGrid.PassDrawsComplete | OsmGlobe/GlobeImageLayer.swift:93-97 | without a trap every tile whose image arrives is drawn at its place |
| TileGrid.PlaceFresh | OsmGlobe/GlobeImageLayer.swift:96-97 | a pass over tiles that do not include `t` makes no draw call in `t`'s rectangle |
| TileGrid.PassPlacesDistinct | OsmGlobe/GlobeImageLayer.swift:96-97 | over distinct tiles no two draw calls of a pass share a rectangle |
| TileGrid.GlobeLayerTiles | OsmGlobe/GlobeImageLayer.swift:89-91 | the 1024-point layer of lines 112-117 is at zoom 2, and a clip box covering it yields exactly the 16 tiles with both indices in `[0, 2^2)` |
| GlobeImageLayer.Context.constructor | OsmGlobe/GlobeImageLayer.swift:82 | the context holds the clip box and scale it was given and no draw calls yet |
| GlobeImageLayer.Context.DrawImage | OsmGlobe/GlobeImageLayer.swift:97 | `ctx.draw` appends one draw call and changes nothing else |
| GlobeImageLayer.TileServer.constructor | OsmGlobe/GlobeImageLayer.swift:93-94 | the server holds its content and has had no requests yet |
| GlobeImageLayer.TileServer.Load | OsmGlobe/GlobeImageLayer.swift:93-94 | a load returns what the URL yields and records the request |
| GlobeImageLayer.ApplySwitch | OsmGlobe/GlobeImageLayer.swift:66-74 | the in-place directive rewrite equals the directive step `SwitchStep`, traps included |
| GlobeImageLayer.TilesLayer.constructor | OsmGlobe/GlobeImageLayer.swift:51-57 | a new layer has the built-in template, 256-point tiles and no frame yet |
| GlobeImageLayer.TilesLayer.SetFrameWidth | OsmGlobe/GlobeImageLayer.swift:114-117 | setting the frame fixes the width the zoom level is taken from |
| GlobeImageLayer.TilesLayer.UrlFor | OsmGlobe/GlobeImageLayer.swift:63-79 | the step-by-step rewrite yields `UrlText`, the directive step then the three replacements, or the trap hit |
| GlobeImageLayer.TilesLayer.DrawTile | OsmGlobe/GlobeImageLayer.swift:92-100 | one inner iteration requests the tile's URL and draws its image at `Place` when it arrives, as `Visit` says |
| GlobeImageLayer.TilesLayer.DrawNext | OsmGlobe/GlobeImageLayer.swift:91-100 | after the rows below `y`, the iteration for row `y` extends the context and server by that tile's visit |
| GlobeImageLayer.TilesLayer.DrawColumn | OsmGlobe/GlobeImageLayer.swift:91-101 | the inner loop leaves the context and server as `Pass` over the column says, stopping at a trap |
| GlobeImageLayer.TilesLayer.DrawGrid | OsmGlobe/GlobeImageLayer.swift:90-102 | the nested loops leave the context and server as `Pass` over the grid says |
| GlobeImageLayer.TilesLayer.Draw | OsmGlobe/GlobeImageLayer.swift:81-103 | a pass traps for a non-positive width and otherwise appends exactly the draw calls and requests of `Pass` over the clip box's tiles at the zoom level of the width |

## Left out

- The `MercatorUnproject` filter and its warp kernels (OsmGlobe/GlobeImageLayer.swift:11-47): floating-point Core Image GPU kernels applied through a foreign API.
- `GlobeImageLayer` (lines 106-172) beyond the tile layer's width. Its `CGFloat` geometry, the three-second `DispatchQueue` delay, `unstretch` and the always-nil `imageForLayer` are rendering, timing and dead code.
- OsmGlobe/GlobeViewController.swift is not part of this model. It is SceneKit scene and UI wiring only.
- `CATiledLayer` scheduling. `draw(in:)` may run concurrently for several tiles; the model runs one pass at a time.
- The `print` calls at lines 83, 86 and 99, which are logging only.
- `init?(coder:)`, which always calls `fatalError`.
- `levelsOfDetail = 18` (line 55). It configures `CATiledLayer`'s own scheduling, and nothing in the modelled code reads it.
- The network and image decoding. `Data(contentsOf:)` followed by `UIImage(data:)` is the `TileServer` content function, a pure oracle from URL text to an optional image.
- `URL(string:)` is the `isUrl` predicate parameter. No URL parser is modelled.
- Floating point. The frame width and the clip box are integral.
  - `Int(log2(w / 256.0))` is computed exactly as `Zoom`. Rounding of the real `log2` near a power of two is not modelled.
  - `Int(v / 256.0)` is the integer division `TruncDiv` rounding toward zero.
  - The context transform's `a` entry is a `real`, `scale`.
- Swift `String` is modelled as a sequence of characters; grapheme clustering is not modelled. The template and every inserted text are ASCII.
- TileGrid.Place: `x * 256` and `row * 256` are unbounded integers. The 64-bit overflow trap that `x * 256` would hit for indices beyond 2^55 is not modelled.
- `image.cgImage!` at line 97 is assumed to succeed: an image decoded by `UIImage(data:)` has a `CGImage`.
