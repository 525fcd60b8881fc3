/**
 * What one `TilesLayer.draw(in:)` pass does, as values: the zoom level
 * derived from the layer width, the tiles of the clip rectangle in the
 * order the two loops visit them, where each tile is drawn, and the
 * requests, draw calls and trap the whole pass produces.
 */
module TileGrid {
  import opened Wrappers
  import opened Integers
  import opened TileUrl

  /** Tiles are 256 by 256 points. */
  const TileSize: int := 256

  // ---------------------------------------------------------------------
  // The zoom level
  // ---------------------------------------------------------------------

  function Pow2(k: nat): (r: nat)
    ensures r >= 1
  {
    if k == 0 then 1 else 2 * Pow2(k - 1)
  }

  lemma {:induction false} Pow2Monotone(j: nat, k: nat)
    requires j <= k
    ensures Pow2(j) <= Pow2(k)
    decreases k
  {
    if j < k {
      Pow2Monotone(j, k - 1);
    }
  }

  /** `floor(log2(n))` for a positive integer. */
  function Log2Floor(n: nat): (r: nat)
    requires n >= 1
    ensures Pow2(r) <= n < Pow2(r + 1)
  {
    if n == 1 then 0 else 1 + Log2Floor(n / 2)
  }

  /** Only one exponent brackets `n` between consecutive powers of two. */
  lemma Log2FloorUnique(n: nat, k: nat)
    requires n >= 1
    ensures Log2Floor(n) == k <==> Pow2(k) <= n < Pow2(k + 1)
  {
    var r := Log2Floor(n);
    if k < r {
      Pow2Monotone(k + 1, r);
    } else if k > r {
      Pow2Monotone(r + 1, k);
    }
  }

  /**
   * `Int(log2(width / 256))` for an integral layer width: `log2` of a
   * fraction is negative and `Int` rounds toward zero; a width that is not
   * positive makes `log2` return -inf or NaN, and `Int` of either traps.
   */
  function Zoom(width: int): Option<int> {
    if width <= 0 then None
    else if width >= TileSize then Some(Log2Floor(width / TileSize))
    else Some(-(Log2Floor(TileSize / width) as int))
  }

  /** The zoom level exists exactly for a positive width. */
  lemma ZoomDefined(width: int)
    ensures Zoom(width).Some? <==> width > 0
  {
  }

  /** A width of at least one tile gets the largest `k` with `2^k` tiles fitting in it. */
  lemma ZoomWide(width: int, k: nat)
    requires width >= TileSize
    ensures Zoom(width) == Some(k) <==> Pow2(k) * TileSize <= width < Pow2(k + 1) * TileSize
  {
    var q := width / TileSize;
    DivBound(width, TileSize, 1);
    DivBound(width, TileSize, Pow2(k));
    DivBound(width, TileSize, Pow2(k + 1));
    Log2FloorUnique(q, k);
  }

  /** A width below one tile gets `-k`, where `2^k` copies of the width fit in one tile. */
  lemma ZoomNarrow(width: int, k: nat)
    requires 0 < width < TileSize
    ensures Zoom(width) == Some(-(k as int)) <==> Pow2(k) * width <= TileSize < Pow2(k + 1) * width
  {
    var q := TileSize / width;
    DivBound(TileSize, width, 1);
    DivBound(TileSize, width, Pow2(k));
    DivBound(TileSize, width, Pow2(k + 1));
    Log2FloorUnique(q, k);
  }

  /** The 1024-point layer `GlobeImageLayer` builds is drawn at zoom 2. */
  lemma ZoomOfGlobeLayer()
    ensures Zoom(1024) == Some(2)
  {
    ZoomWide(1024, 2);
  }

  // ---------------------------------------------------------------------
  // The tiles the two loops visit
  // ---------------------------------------------------------------------

  datatype Tile = Tile(x: Int, y: Int)

  /** The inner loop: tiles `(x, lo) .. (x, hi - 1)`. */
  function Column(x: Int, lo: Int, hi: Int): (c: seq<Tile>)
    requires lo <= hi
    ensures |c| == hi - lo
    ensures forall k :: 0 <= k < |c| ==> c[k] == Tile(x, lo + k)
    decreases hi - lo
  {
    if lo == hi then [] else Column(x, lo, hi - 1) + [Tile(x, hi - 1)]
  }

  /** Both loops: column after column, each from its lowest row upward. */
  function Grid(loX: Int, hiX: Int, loY: Int, hiY: Int): seq<Tile>
    requires loX <= hiX && loY <= hiY
    decreases hiX - loX
  {
    if loX == hiX then [] else Grid(loX, hiX - 1, loY, hiY) + Column(hiX - 1, loY, hiY)
  }

  /** The loops visit one tile per column and row. */
  lemma {:induction false} GridLength(loX: Int, hiX: Int, loY: Int, hiY: Int)
    requires loX <= hiX && loY <= hiY
    ensures |Grid(loX, hiX, loY, hiY)| == (hiX - loX) * (hiY - loY)
    decreases hiX - loX
  {
    if loX < hiX {
      GridLength(loX, hiX - 1, loY, hiY);
      assert |Grid(loX, hiX, loY, hiY)| == (hiX - 1 - loX) * (hiY - loY) + (hiY - loY);
    }
  }

  /** A column splits at any row between its ends. */
  lemma ColumnSplit(x: Int, lo: Int, mid: Int, hi: Int)
    requires lo <= mid <= hi
    ensures Column(x, lo, hi) == Column(x, lo, mid) + Column(x, mid, hi)
  {
    var c, a, b := Column(x, lo, hi), Column(x, lo, mid), Column(x, mid, hi);
    forall k | 0 <= k < |c| ensures c[k] == (a + b)[k] {
      if k >= |a| {
        assert (a + b)[k] == b[k - |a|];
      }
    }
  }

  /** The grid splits at any column between its ends. */
  lemma {:induction false} GridSplit(lo: Int, mid: Int, hi: Int, loY: Int, hiY: Int)
    requires lo <= mid <= hi && loY <= hiY
    ensures Grid(lo, hi, loY, hiY) == Grid(lo, mid, loY, hiY) + Grid(mid, hi, loY, hiY)
    decreases hi - mid
  {
    if mid < hi {
      GridSplit(lo, mid, hi - 1, loY, hiY);
      var c := Column(hi - 1, loY, hiY);
      assert Grid(lo, hi, loY, hiY) == Grid(lo, hi - 1, loY, hiY) + c;
      assert Grid(mid, hi, loY, hiY) == Grid(mid, hi - 1, loY, hiY) + c;
    }
  }

  /** The tiles visited before tile `(x, y)`: all earlier columns, then the rows below `y`. */
  lemma GridPrefix(loX: Int, x: Int, hiX: Int, loY: Int, y: Int, hiY: Int)
    requires loX <= x < hiX && loY <= y <= hiY
    ensures Grid(loX, hiX, loY, hiY)
            == (Grid(loX, x, loY, hiY) + Column(x, loY, y)) + (Column(x, y, hiY) + Grid(x + 1, hiX, loY, hiY))
  {
    GridSplit(loX, x + 1, hiX, loY, hiY);
    ColumnSplit(x, loY, y, hiY);
    assert Grid(loX, x + 1, loY, hiY) == Grid(loX, x, loY, hiY) + Column(x, loY, hiY);
  }

  /** A tile is visited exactly when it lies in both index ranges. */
  lemma {:induction false} GridMember(loX: Int, hiX: Int, loY: Int, hiY: Int, t: Tile)
    requires loX <= hiX && loY <= hiY
    ensures t in Grid(loX, hiX, loY, hiY) <==> loX <= t.x < hiX && loY <= t.y < hiY
    decreases hiX - loX
  {
    if loX < hiX {
      GridMember(loX, hiX - 1, loY, hiY, t);
      var c := Column(hiX - 1, loY, hiY);
      if t.x == hiX - 1 && loY <= t.y < hiY {
        assert c[t.y - loY] == t;
      }
    }
  }

  /** `a` comes before `b` in the loops' order: by column, then by row. */
  predicate Before(a: Tile, b: Tile) {
    a.x < b.x || (a.x == b.x && a.y < b.y)
  }

  predicate Ordered(ts: seq<Tile>) {
    forall i, j :: 0 <= i < j < |ts| ==> Before(ts[i], ts[j])
  }

  /** The loops visit the tiles in strictly increasing column-then-row order. */
  lemma {:induction false} GridOrdered(loX: Int, hiX: Int, loY: Int, hiY: Int)
    requires loX <= hiX && loY <= hiY
    ensures Ordered(Grid(loX, hiX, loY, hiY))
    decreases hiX - loX
  {
    if loX < hiX {
      GridOrdered(loX, hiX - 1, loY, hiY);
      var a, c := Grid(loX, hiX - 1, loY, hiY), Column(hiX - 1, loY, hiY);
      var g := a + c;
      assert Ordered(a);
      forall i, j | 0 <= i < j < |g| ensures Before(g[i], g[j]) {
        if j < |a| {
          assert g[i] == a[i] && g[j] == a[j];
          assert Before(a[i], a[j]);
        } else if i < |a| {
          assert a[i] in a;
          GridMember(loX, hiX - 1, loY, hiY, a[i]);
          assert g[i] == a[i] && g[j] == c[j - |a|];
          assert g[i].x < hiX - 1 == g[j].x;
        } else {
          assert g[i] == c[i - |a|] == Tile(hiX - 1, loY + (i - |a|));
          assert g[j] == c[j - |a|] == Tile(hiX - 1, loY + (j - |a|));
        }
      }
    }
  }

  predicate Distinct(ts: seq<Tile>) {
    forall i, j :: 0 <= i < j < |ts| ==> ts[i] != ts[j]
  }

  /** No tile is visited twice. */
  lemma GridDistinct(loX: Int, hiX: Int, loY: Int, hiY: Int)
    requires loX <= hiX && loY <= hiY
    ensures Distinct(Grid(loX, hiX, loY, hiY))
  {
    GridOrdered(loX, hiX, loY, hiY);
  }

  /** Position `k` of the visit order holds column `k / h` and row `k % h` of the range. */
  lemma {:induction false} GridIndex(loX: Int, hiX: Int, loY: Int, hiY: Int, k: int)
    requires loX <= hiX && loY < hiY
    requires 0 <= k < (hiX - loX) * (hiY - loY)
    ensures (GridLength(loX, hiX, loY, hiY);
             var h := hiY - loY;
             Grid(loX, hiX, loY, hiY)[k] == Tile(loX + k / h, loY + k % h))
    decreases hiX - loX
  {
    var h := hiY - loY;
    var a := Grid(loX, hiX - 1, loY, hiY);
    var n := hiX - 1 - loX;
    GridLength(loX, hiX, loY, hiY);
    GridLength(loX, hiX - 1, loY, hiY);
    if k < |a| {
      GridIndex(loX, hiX - 1, loY, hiY, k);
    } else {
      assert |a| == n * h;
      DivModUnique(k, h, n, k - n * h);
      assert (a + Column(hiX - 1, loY, hiY))[k] == Column(hiX - 1, loY, hiY)[k - n * h];
    }
  }

  // ---------------------------------------------------------------------
  // Where a tile is drawn
  // ---------------------------------------------------------------------

  /** `Int(v / 256.0)`: the index of the tile column or row holding coordinate `v`, rounded toward zero. */
  function TileIndex(v: Int): (i: Int)
    ensures v >= 0 ==> i as int == v / TileSize
    ensures v < 0 ==> (i as int) * TileSize - TileSize < v <= (i as int) * TileSize
  {
    TruncDiv(v, TileSize)
  }

  /**
   * The tiles the two loops of `draw(in:)` visit for a clip box, in their
   * order; a tile is among them exactly when its column and row indices
   * lie in the ranges derived from the box.
   */
  function ClipTiles(minX: Int, minY: Int, maxX: Int, maxY: Int): (g: seq<Tile>)
    requires minX <= maxX && minY <= maxY
    ensures forall t :: t in g <==>
              TileIndex(minX) <= t.x < TileIndex(maxX) && TileIndex(minY) <= t.y < TileIndex(maxY)
    ensures Ordered(g)
  {
    TruncDivMonotone(minX, maxX, TileSize);
    TruncDivMonotone(minY, maxY, TileSize);
    var loX, hiX, loY, hiY := TileIndex(minX), TileIndex(maxX), TileIndex(minY), TileIndex(maxY);
    GridOrdered(loX, hiX, loY, hiY);
    forall t ensures t in Grid(loX, hiX, loY, hiY) <==> loX <= t.x < hiX && loY <= t.y < hiY {
      GridMember(loX, hiX, loY, hiY, t);
    }
    Grid(loX, hiX, loY, hiY)
  }

  /** The tile ranges of a clip box are never reversed, and its tiles are their grid. */
  lemma ClipTilesGrid(minX: Int, minY: Int, maxX: Int, maxY: Int)
    requires minX <= maxX && minY <= maxY
    ensures TileIndex(minX) <= TileIndex(maxX) && TileIndex(minY) <= TileIndex(maxY)
    ensures ClipTiles(minX, minY, maxX, maxY) == Grid(TileIndex(minX), TileIndex(maxX), TileIndex(minY), TileIndex(maxY))
  {
    TruncDivMonotone(minX, maxX, TileSize);
    TruncDivMonotone(minY, maxY, TileSize);
  }

  /** A `CGRect` with integral origin and size. */
  datatype Rect = Rect(x: int, y: int, width: int, height: int)

  /** The row a tile is drawn at: counted down from `hiY` when the context is flipped. */
  function Row(y: int, hiY: int, flip: bool): int {
    if flip then hiY - 1 - y else y
  }

  /** The rectangle `draw(in:)` paints a tile's image into. */
  function Place(t: Tile, hiY: int, flip: bool): Rect {
    Rect(t.x * TileSize, Row(t.y, hiY, flip) * TileSize, TileSize, TileSize)
  }

  /** Different tiles are painted at different places, flipped or not. */
  lemma PlaceInjective(s: Tile, t: Tile, hiY: int, flip: bool)
    ensures Place(s, hiY, flip) == Place(t, hiY, flip) <==> s == t
  {
  }

  /**
   * Every tile of the range is painted inside the span of its columns and
   * rows; flipped rows count from 0 up to the number of rows.
   */
  lemma PlaceWithin(t: Tile, loX: int, hiX: int, loY: int, hiY: int, flip: bool)
    requires loX <= t.x < hiX && loY <= t.y < hiY
    ensures var r := Place(t, hiY, flip);
            loX * TileSize <= r.x && r.x + TileSize <= hiX * TileSize &&
            (flip ==> 0 <= r.y && r.y + TileSize <= (hiY - loY) * TileSize) &&
            (!flip ==> loY * TileSize <= r.y && r.y + TileSize <= hiY * TileSize)
  {
  }

  // ---------------------------------------------------------------------
  // One drawing pass
  // ---------------------------------------------------------------------

  /** `ctx.draw(image, in: rect)`. */
  datatype DrawCall<Img> = DrawCall(image: Img, rect: Rect)

  /**
   * What a pass works with: `urlFor` at the pass's zoom level, the top of
   * the row range, whether the context is flipped (`ctm.a > 1`), and what
   * `Data(contentsOf:)` followed by `UIImage(data:)` yields for each URL.
   */
  datatype Env<Img> = Env(urlFor: Tile -> Result<string, UrlError>, hiY: int, flip: bool,
                          fetch: string -> Option<Img>)

  /** The URLs requested, the images drawn, and whether `urlFor` trapped. */
  datatype Outcome<Img> = Outcome(requests: seq<string>, draws: seq<DrawCall<Img>>, trapped: bool)

  /** `urlFor` as a draw pass calls it: with the template and the pass's zoom level. */
  function TileUrlFor(template: string, zoom: int, isUrl: string -> bool): Tile -> Result<string, UrlError> {
    (t: Tile) => UrlText(template, t.x, t.y, zoom, isUrl)
  }

  /** One iteration of the inner loop. */
  function Visit<Img>(env: Env<Img>, t: Tile, o: Outcome<Img>): Outcome<Img> {
    match env.urlFor(t)
    case Err(_) => o.(trapped := true)
    case Ok(u) =>
      match env.fetch(u)
      case None => o.(requests := o.requests + [u])
      case Some(img) =>
        o.(requests := o.requests + [u], draws := o.draws + [DrawCall(img, Place(t, env.hiY, env.flip))])
  }

  /** A visit adds the same requests and draws whatever came before it. */
  lemma VisitAppends<Img>(env: Env<Img>, t: Tile, o: Outcome<Img>)
    ensures var v, w := Visit(env, t, Outcome([], [], false)), Visit(env, t, o);
            w.requests == o.requests + v.requests && w.draws == o.draws + v.draws &&
            w.trapped == (o.trapped || v.trapped)
  {
  }

  /** The pass over `tiles` in order; a trap ends it. */
  function Pass<Img>(env: Env<Img>, tiles: seq<Tile>): (o: Outcome<Img>)
    ensures |o.draws| <= |o.requests| <= |tiles|
  {
    if tiles == [] then Outcome([], [], false)
    else
      var o := Pass(env, tiles[..|tiles| - 1]);
      if o.trapped then o else Visit(env, tiles[|tiles| - 1], o)
  }

  lemma PassStep<Img>(env: Env<Img>, tiles: seq<Tile>, t: Tile)
    ensures var o := Pass(env, tiles);
            Pass(env, tiles + [t]) == if o.trapped then o else Visit(env, t, o)
  {
    assert (tiles + [t])[..|tiles|] == tiles;
  }

  /** Visiting tile `(x, y)` of column `x` after `prefix` and the rows below `y`. */
  lemma PassNextTile<Img>(env: Env<Img>, prefix: seq<Tile>, x: Int, loY: Int, y: Int, hiY: Int)
    requires loY <= y < hiY
    requires !Pass(env, prefix + Column(x, loY, y)).trapped
    ensures var o := Pass(env, prefix + Column(x, loY, y));
            var v := Visit(env, Tile(x, y), Outcome([], [], false));
            Pass(env, prefix + Column(x, loY, y + 1))
              == Outcome(o.requests + v.requests, o.draws + v.draws, v.trapped)
  {
    var done := prefix + Column(x, loY, y);
    PassStep(env, done, Tile(x, y));
    VisitAppends(env, Tile(x, y), Pass(env, done));
    assert done + [Tile(x, y)] == prefix + Column(x, loY, y + 1);
  }

  /** A trap at tile `(x, y)` is where the pass over the rest of column `x` ends. */
  lemma PassTrapInColumn<Img>(env: Env<Img>, prefix: seq<Tile>, x: Int, loY: Int, y: Int, hiY: Int)
    requires loY <= y < hiY
    requires Pass(env, prefix + Column(x, loY, y + 1)).trapped
    ensures Pass(env, prefix + Column(x, loY, hiY)) == Pass(env, prefix + Column(x, loY, y + 1))
  {
    ColumnSplit(x, loY, y + 1, hiY);
    assert prefix + Column(x, loY, hiY) == (prefix + Column(x, loY, y + 1)) + Column(x, y + 1, hiY);
    PassTrapFinal(env, prefix + Column(x, loY, y + 1), Column(x, y + 1, hiY));
  }

  /**
   * The pass after column `x` is the pass over the columns up to `x + 1`,
   * and when it has trapped it is the pass over the whole grid.
   */
  lemma PassNextColumn<Img>(env: Env<Img>, loX: Int, x: Int, hiX: Int, loY: Int, hiY: Int)
    requires loX <= x < hiX && loY <= hiY
    ensures var o := Pass(env, Grid(loX, x, loY, hiY) + Column(x, loY, hiY));
            o == Pass(env, Grid(loX, x + 1, loY, hiY)) && (o.trapped ==> o == Pass(env, Grid(loX, hiX, loY, hiY)))
  {
    assert Grid(loX, x + 1, loY, hiY) == Grid(loX, x, loY, hiY) + Column(x, loY, hiY);
    if Pass(env, Grid(loX, x + 1, loY, hiY)).trapped {
      GridSplit(loX, x + 1, hiX, loY, hiY);
      PassTrapFinal(env, Grid(loX, x + 1, loY, hiY), Grid(x + 1, hiX, loY, hiY));
    }
  }

  /** Once `urlFor` traps nothing more happens. */
  lemma {:induction false} PassTrapFinal<Img>(env: Env<Img>, a: seq<Tile>, b: seq<Tile>)
    requires Pass(env, a).trapped
    ensures Pass(env, a + b) == Pass(env, a)
    decreases |b|
  {
    if b != [] {
      var b', t := b[..|b| - 1], b[|b| - 1];
      PassTrapFinal(env, a, b');
      assert b == b' + [t];
      assert a + b == (a + b') + [t];
      PassStep(env, a + b', t);
    } else {
      assert a + b == a;
    }
  }

  /** Later tiles only add requests and draws after the earlier ones. */
  lemma {:induction false} PassPrefix<Img>(env: Env<Img>, a: seq<Tile>, b: seq<Tile>)
    ensures var o, o' := Pass(env, a), Pass(env, a + b);
            o.requests <= o'.requests && o.draws <= o'.draws && (o.trapped ==> o'.trapped)
    decreases |b|
  {
    if b != [] {
      var b', t := b[..|b| - 1], b[|b| - 1];
      PassPrefix(env, a, b');
      assert b == b' + [t];
      assert a + b == (a + b') + [t];
      PassStep(env, a + b', t);
    } else {
      assert a + b == a;
    }
  }

  /** The pass traps exactly when some tile's URL cannot be built. */
  lemma {:induction false} PassTrapped<Img>(env: Env<Img>, tiles: seq<Tile>)
    ensures Pass(env, tiles).trapped <==> exists k :: 0 <= k < |tiles| && env.urlFor(tiles[k]).Err?
    decreases |tiles|
  {
    if tiles != [] {
      var a, t := tiles[..|tiles| - 1], tiles[|tiles| - 1];
      PassTrapped(env, a);
      assert tiles == a + [t];
      if Pass(env, a).trapped {
        var k :| 0 <= k < |a| && env.urlFor(a[k]).Err?;
        assert tiles[k] == a[k];
      }
      if exists k :: 0 <= k < |tiles| && env.urlFor(tiles[k]).Err? {
        var k :| 0 <= k < |tiles| && env.urlFor(tiles[k]).Err?;
        if k < |a| { assert a[k] == tiles[k]; }
      }
    }
  }

  /** Without a trap every tile's URL is requested, in the order of the tiles. */
  lemma {:induction false} PassRequests<Img>(env: Env<Img>, tiles: seq<Tile>)
    requires !Pass(env, tiles).trapped
    ensures var o := Pass(env, tiles);
            |o.requests| == |tiles| &&
            forall k :: 0 <= k < |tiles| ==> env.urlFor(tiles[k]) == Ok(o.requests[k])
    decreases |tiles|
  {
    if tiles != [] {
      var a, t := tiles[..|tiles| - 1], tiles[|tiles| - 1];
      PassRequests(env, a);
      var o, o' := Pass(env, a), Pass(env, tiles);
      assert o'.requests == o.requests + [env.urlFor(t).value];
      forall k | 0 <= k < |tiles| ensures env.urlFor(tiles[k]) == Ok(o'.requests[k]) {
        if k < |a| { assert tiles[k] == a[k]; }
      }
    }
  }

  /**
   * A trap at tile `k`, the first whose URL cannot be built, ends the pass
   * with exactly what the tiles before it produced.
   */
  lemma PassStopsAtFirstTrap<Img>(env: Env<Img>, tiles: seq<Tile>, k: nat)
    requires k < |tiles| && env.urlFor(tiles[k]).Err?
    requires forall j :: 0 <= j < k ==> env.urlFor(tiles[j]).Ok?
    ensures var o := Pass(env, tiles[..k]);
            !o.trapped && Pass(env, tiles) == o.(trapped := true)
  {
    var a := tiles[..k];
    PassTrapped(env, a);
    PassStep(env, a, tiles[k]);
    PassTrapFinal(env, a + [tiles[k]], tiles[k + 1..]);
    assert tiles == a + [tiles[k]] + tiles[k + 1..];
  }

  /** `d` paints the image fetched for `t` at the place of `t`. */
  ghost predicate TileDrawn<Img>(env: Env<Img>, t: Tile, d: DrawCall<Img>) {
    env.urlFor(t).Ok? && env.fetch(env.urlFor(t).value) == Some(d.image) &&
    d.rect == Place(t, env.hiY, env.flip)
  }

  ghost predicate DrawnFrom<Img>(env: Env<Img>, tiles: seq<Tile>, d: DrawCall<Img>) {
    exists k :: 0 <= k < |tiles| && TileDrawn(env, tiles[k], d)
  }

  /** Every draw paints the fetched image of a tile of the pass at that tile's place. */
  lemma {:induction false} PassDrawsSound<Img>(env: Env<Img>, tiles: seq<Tile>)
    ensures var o := Pass(env, tiles);
            forall d :: d in o.draws ==> DrawnFrom(env, tiles, d)
    decreases |tiles|
  {
    if tiles != [] {
      var a, t := tiles[..|tiles| - 1], tiles[|tiles| - 1];
      PassDrawsSound(env, a);
      var o, o' := Pass(env, a), Pass(env, tiles);
      assert tiles == a + [t];
      PassStep(env, a, t);
      forall d | d in o'.draws ensures DrawnFrom(env, tiles, d) {
        if d in o.draws {
          assert DrawnFrom(env, a, d);
          var k :| 0 <= k < |a| && TileDrawn(env, a[k], d);
          assert tiles[k] == a[k];
        } else {
          assert TileDrawn(env, tiles[|tiles| - 1], d);
        }
      }
    }
  }

  /** Without a trap every tile whose image arrives is drawn at its place. */
  lemma {:induction false} PassDrawsComplete<Img>(env: Env<Img>, tiles: seq<Tile>, k: nat)
    requires !Pass(env, tiles).trapped && k < |tiles|
    requires env.urlFor(tiles[k]).Ok? && env.fetch(env.urlFor(tiles[k]).value).Some?
    ensures var img := env.fetch(env.urlFor(tiles[k]).value).value;
            DrawCall(img, Place(tiles[k], env.hiY, env.flip)) in Pass(env, tiles).draws
    decreases |tiles|
  {
    var a := tiles[..|tiles| - 1];
    PassPrefix(env, a, [tiles[|tiles| - 1]]);
    assert a + [tiles[|tiles| - 1]] == tiles;
    if k < |a| {
      assert a[k] == tiles[k];
      PassDrawsComplete(env, a, k);
    }
  }

  /** A tile not among `tiles` is painted away from every draw of their pass. */
  lemma PlaceFresh<Img>(env: Env<Img>, tiles: seq<Tile>, t: Tile)
    requires forall k :: 0 <= k < |tiles| ==> tiles[k] != t
    ensures forall d :: d in Pass(env, tiles).draws ==> d.rect != Place(t, env.hiY, env.flip)
  {
    PassDrawsSound(env, tiles);
    forall d | d in Pass(env, tiles).draws ensures d.rect != Place(t, env.hiY, env.flip) {
      assert DrawnFrom(env, tiles, d);
      var k :| 0 <= k < |tiles| && TileDrawn(env, tiles[k], d);
      PlaceInjective(tiles[k], t, env.hiY, env.flip);
    }
  }

  /** Over distinct tiles no two draws of a pass paint the same rectangle. */
  lemma {:induction false} PassPlacesDistinct<Img>(env: Env<Img>, tiles: seq<Tile>)
    requires Distinct(tiles)
    ensures var d := Pass(env, tiles).draws;
            forall i, j :: 0 <= i < j < |d| ==> d[i].rect != d[j].rect
    decreases |tiles|
  {
    if tiles != [] {
      var a, t := tiles[..|tiles| - 1], tiles[|tiles| - 1];
      assert Distinct(a) by {
        forall i, j | 0 <= i < j < |a| ensures a[i] != a[j] { assert a[i] == tiles[i] && a[j] == tiles[j]; }
      }
      PassPlacesDistinct(env, a);
      assert tiles == a + [t];
      PassStep(env, a, t);
      var d, d' := Pass(env, a).draws, Pass(env, tiles).draws;
      if d' != d {
        assert forall k :: 0 <= k < |a| ==> a[k] != t by {
          forall k | 0 <= k < |a| ensures a[k] != t { assert a[k] == tiles[k]; }
        }
        PlaceFresh(env, a, t);
        var r := d'[|d'| - 1].rect;
        assert d' == d + [d'[|d'| - 1]] && r == Place(t, env.hiY, env.flip);
        forall i, j | 0 <= i < j < |d'| ensures d'[i].rect != d'[j].rect {
          if j < |d| {
            assert d'[i] == d[i] && d'[j] == d[j];
          } else {
            assert d'[i] == d[i] && d[i] in d;
          }
        }
      }
    }
  }

  /**
   * The 1024-point layer with a clip covering it draws the sixteen tiles
   * of zoom 2, each of whose indices is below `2^2`.
   */
  lemma GlobeLayerTiles(t: Tile)
    ensures Zoom(1024) == Some(2)
    ensures t in ClipTiles(0, 0, 1024, 1024) <==> 0 <= t.x < Pow2(2) && 0 <= t.y < Pow2(2)
    ensures |ClipTiles(0, 0, 1024, 1024)| == 16
  {
    ZoomOfGlobeLayer();
    ClipTilesGrid(0, 0, 1024, 1024);
    GridLength(0, 4, 0, 4);
  }
}
