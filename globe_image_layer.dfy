/**
 * The tiled layer that paints OpenStreetMap tiles onto the globe, with the
 * two objects its drawing pass talks to: the graphics context it draws
 * into and the server the tile images come from.
 */
module GlobeImageLayer {
  import opened Wrappers
  import opened Integers
  import opened Strings
  import opened TileUrl
  import opened TileGrid

  /**
   * The `CGContext` handed to `draw(in:)`: the bounding box of its clip
   * path, the `a` entry of its transform, and the draw calls made on it.
   */
  class Context<Img> {
    const minX: Int
    const minY: Int
    const maxX: Int
    const maxY: Int
    const scale: real
    var calls: seq<DrawCall<Img>>

    constructor(minX: Int, minY: Int, maxX: Int, maxY: Int, scale: real)
      requires minX <= maxX && minY <= maxY
      ensures this.minX == minX && this.minY == minY && this.maxX == maxX && this.maxY == maxY
      ensures this.scale == scale && calls == []
    {
      this.minX, this.minY, this.maxX, this.maxY := minX, minY, maxX, maxY;
      this.scale := scale;
      calls := [];
    }

    /** `draw(_:in:)`: the image is recorded with its rectangle. */
    method DrawImage(image: Img, rect: Rect)
      modifies this
      ensures calls == old(calls) + [DrawCall(image, rect)]
    {
      calls := calls + [DrawCall(image, rect)];
    }
  }

  /**
   * Where `Data(contentsOf:)` gets tile images from: what each URL yields
   * once decoded by `UIImage(data:)`, and the URLs asked for so far.
   */
  class TileServer<Img> {
    const content: string -> Option<Img>
    var requests: seq<string>

    constructor(content: string -> Option<Img>)
      ensures this.content == content && requests == []
    {
      this.content := content;
      requests := [];
    }

    /** One blocking load: the URL is recorded and its image, if any, returned. */
    method Load(url: string) returns (image: Option<Img>)
      modifies this
      ensures image == content(url)
      ensures requests == old(requests) + [url]
    {
      requests := requests + [url];
      image := content(url);
    }
  }

  /**
   * The directive step of `urlFor(x:y:z:)` on the text `t`: the span from the
   * first `{switch:` to the first `}` after it is cut out and replaced by the
   * host the shard index picks from its comma-separated list.
   */
  method ApplySwitch(t: string, x: Int, y: Int) returns (r: Result<string, UrlError>)
    ensures r == SwitchStep(t, x, y)
  {
    var u := t;
    var begin := Find(u, SwitchOpen, 0);
    if begin.Some? {
      var end := Find(u, SwitchClose, begin.value + |SwitchOpen|);
      if end.Some? {
        var list := Split(u[begin.value + |SwitchOpen|..end.value], HostSeparator);
        if |list| > 0 {
          var sum := x + y;
          if !IsInt(sum) {
            return Err(AdditionOverflow);
          }
          var i := TruncRem(sum, |list|);
          if i < 0 {
            return Err(HostIndexOutOfRange);
          }
          u := u[..begin.value] + list[i] + u[end.value + |SwitchClose|..];
        }
      }
    }
    return Ok(u);
  }

  /** The pass's URL rule agrees with the layer's `urlFor` at tile `(x, y)`. */
  ghost predicate UrlAt<Img>(env: Env<Img>, template: string, x: Int, y: Int, z: int, isUrl: string -> bool) {
    env.urlFor(Tile(x, y)) == UrlText(template, x, y, z, isUrl)
  }

  lemma AppendAssoc<T>(a: seq<T>, b: seq<T>, c: seq<T>)
    ensures (a + b) + c == a + (b + c)
  {
  }

  /** `TilesLayer`: a `CATiledLayer` drawing 256-point tiles fetched from its URL template. */
  class TilesLayer {
    const url: string
    /** The side of a tile, in points. */
    const tileSize: int := TileSize
    var frameWidth: int

    constructor()
      ensures url == DefaultTemplate && frameWidth == 0
    {
      url := DefaultTemplate;
      frameWidth := 0;
    }

    /** Setting the layer's frame, of which only the width matters to drawing. */
    method SetFrameWidth(width: int)
      modifies this
      ensures frameWidth == width
    {
      frameWidth := width;
    }

    /**
     * `urlFor(x:y:z:)`: the template is rewritten in place, directive first,
     * then the three placeholders; the outcome is the URL text or the trap
     * hit on the way.
     */
    method UrlFor(x: Int, y: Int, z: int, isUrl: string -> bool) returns (r: Result<string, UrlError>)
      ensures r == UrlText(url, x, y, z, isUrl)
    {
      var switched := ApplySwitch(url, x, y);
      if switched.Err? {
        return Err(switched.error);
      }
      var u := switched.value;
      u := ReplaceAll(u, XPlaceholder, Decimal(x));
      u := ReplaceAll(u, YPlaceholder, Decimal(y));
      u := ReplaceAll(u, ZPlaceholder, Decimal(z));
      if !isUrl(u) {
        return Err(MalformedUrl);
      }
      return Ok(u);
    }

    /** One iteration of the inner loop of `draw(in:)`: the visit of tile `(x, y)`. */
    method DrawTile<Img>(ctx: Context<Img>, net: TileServer<Img>, ghost env: Env<Img>, x: Int, y: Int, z: int,
                         hiY: int, flip: bool, isUrl: string -> bool) returns (trapped: bool, ghost v: Outcome<Img>)
      requires UrlAt(env, url, x, y, z, isUrl) && env.hiY == hiY && env.flip == flip && env.fetch == net.content
      modifies ctx, net
      ensures v == Visit(env, Tile(x, y), Outcome([], [], false))
      ensures trapped == v.trapped && ctx.calls == old(ctx.calls) + v.draws &&
              net.requests == old(net.requests) + v.requests
    {
      v := Visit(env, Tile(x, y), Outcome([], [], false));
      var u := UrlFor(x, y, z, isUrl);
      if u.Err? {
        return true, v;
      }
      var image := net.Load(u.value);
      if image.Some? {
        var row := if flip then hiY - 1 - y else y;
        ctx.DrawImage(image.value, Rect(x * tileSize, row * tileSize, tileSize, tileSize));
      }
      return false, v;
    }

    /**
     * Tile `(x, y)` of the inner loop, after the tiles `prefix` of the
     * earlier columns and the rows `loY .. y - 1` of column `x`: the pass
     * so far grows by its visit.
     */
    method DrawNext<Img>(ctx: Context<Img>, net: TileServer<Img>, ghost env: Env<Img>, ghost prefix: seq<Tile>,
                         x: Int, loY: Int, y: Int, hiY: Int, z: int, flip: bool, isUrl: string -> bool,
                         ghost calls0: seq<DrawCall<Img>>, ghost requests0: seq<string>, ghost before: Outcome<Img>)
      returns (trapped: bool, ghost after: Outcome<Img>)
      requires UrlAt(env, url, x, y, z, isUrl) && env.hiY == hiY && env.flip == flip && env.fetch == net.content
      requires loY <= y < hiY
      requires before == Pass(env, prefix + Column(x, loY, y)) && !before.trapped
      requires ctx.calls == calls0 + before.draws && net.requests == requests0 + before.requests
      modifies ctx, net
      ensures after == Pass(env, prefix + Column(x, loY, y + 1)) && trapped == after.trapped
      ensures ctx.calls == calls0 + after.draws && net.requests == requests0 + after.requests
    {
      PassNextTile(env, prefix, x, loY, y, hiY);
      ghost var v;
      trapped, v := DrawTile(ctx, net, env, x, y, z, hiY, flip, isUrl);
      AppendAssoc(calls0, before.draws, v.draws);
      AppendAssoc(requests0, before.requests, v.requests);
      after := Outcome(before.requests + v.requests, before.draws + v.draws, v.trapped);
    }

    /**
     * The inner loop of `draw(in:)` over column `x`, after the tiles
     * `prefix` of the earlier columns: the pass grows by the column, and
     * stops at a trap.
     */
    method DrawColumn<Img>(ctx: Context<Img>, net: TileServer<Img>, ghost env: Env<Img>, ghost prefix: seq<Tile>,
                           x: Int, loY: Int, hiY: Int, z: int, flip: bool, isUrl: string -> bool,
                           ghost calls0: seq<DrawCall<Img>>, ghost requests0: seq<string>)
      returns (trapped: bool, ghost done: Outcome<Img>)
      requires forall x: Int, y: Int :: UrlAt(env, url, x, y, z, isUrl)
      requires env.hiY == hiY && env.flip == flip && env.fetch == net.content
      requires loY <= hiY
      requires !Pass(env, prefix).trapped
      requires ctx.calls == calls0 + Pass(env, prefix).draws && net.requests == requests0 + Pass(env, prefix).requests
      modifies ctx, net
      ensures done == Pass(env, prefix + Column(x, loY, hiY)) && trapped == done.trapped
      ensures ctx.calls == calls0 + done.draws && net.requests == requests0 + done.requests
    {
      done := Pass(env, prefix);
      assert prefix + Column(x, loY, loY) == prefix;
      var y := loY;
      while y < hiY
        invariant loY <= y <= hiY && env.fetch == net.content
        invariant done == Pass(env, prefix + Column(x, loY, y)) && !done.trapped
        invariant ctx.calls == calls0 + done.draws && net.requests == requests0 + done.requests
      {
        var stop;
        stop, done := DrawNext(ctx, net, env, prefix, x, loY, y, hiY, z, flip, isUrl, calls0, requests0, done);
        if stop {
          PassTrapInColumn(env, prefix, x, loY, y, hiY);
          return true, done;
        }
        y := y + 1;
      }
      return false, done;
    }

    /**
     * The outer loop of `draw(in:)` over the columns `loX .. hiX - 1`: the
     * requests and draw calls are those of `Pass` over the grid.
     */
    method DrawGrid<Img>(ctx: Context<Img>, net: TileServer<Img>, ghost env: Env<Img>,
                         loX: Int, hiX: Int, loY: Int, hiY: Int, z: int, flip: bool, isUrl: string -> bool)
      returns (trapped: bool)
      requires forall x: Int, y: Int :: UrlAt(env, url, x, y, z, isUrl)
      requires env.hiY == hiY && env.flip == flip && env.fetch == net.content
      requires loX <= hiX && loY <= hiY
      modifies ctx, net
      ensures var o := Pass(env, Grid(loX, hiX, loY, hiY));
              trapped == o.trapped && ctx.calls == old(ctx.calls) + o.draws &&
              net.requests == old(net.requests) + o.requests
    {
      ghost var calls0, requests0 := ctx.calls, net.requests;
      assert Grid(loX, loX, loY, hiY) == [];
      ghost var done := Pass(env, []);
      var x := loX;
      while x < hiX
        invariant loX <= x <= hiX && env.fetch == net.content
        invariant done == Pass(env, Grid(loX, x, loY, hiY)) && !done.trapped
        invariant ctx.calls == calls0 + done.draws && net.requests == requests0 + done.requests
      {
        PassNextColumn(env, loX, x, hiX, loY, hiY);
        var stop;
        stop, done := DrawColumn(ctx, net, env, Grid(loX, x, loY, hiY), x, loY, hiY, z, flip, isUrl,
                                 calls0, requests0);
        if stop {
          return true;
        }
        x := x + 1;
      }
      assert x == hiX;
      return false;
    }

    /**
     * `draw(in:)`: every tile of the clip box, column by column, is looked
     * up and, when its image arrives, drawn at its place. The requests and
     * draw calls are those of `Pass` over `ClipTiles`, and `trapped` reports
     * whether the pass ended in a trap, after which nothing more happens.
     */
    method Draw<Img>(ctx: Context<Img>, net: TileServer<Img>, isUrl: string -> bool) returns (trapped: bool)
      requires ctx.minX <= ctx.maxX && ctx.minY <= ctx.maxY
      modifies ctx, net
      ensures Zoom(frameWidth).None? ==>
                trapped && ctx.calls == old(ctx.calls) && net.requests == old(net.requests)
      ensures Zoom(frameWidth).Some? ==>
                var env := Env(TileUrlFor(url, Zoom(frameWidth).value, isUrl), TileIndex(ctx.maxY),
                               ctx.scale > 1.0, net.content);
                var o := Pass(env, ClipTiles(ctx.minX, ctx.minY, ctx.maxX, ctx.maxY));
                trapped == o.trapped && ctx.calls == old(ctx.calls) + o.draws &&
                net.requests == old(net.requests) + o.requests
    {
      var zoom := Zoom(frameWidth);
      if zoom.None? {
        return true;
      }
      var z := zoom.value;
      ClipTilesGrid(ctx.minX, ctx.minY, ctx.maxX, ctx.maxY);
      var loX, hiX := TileIndex(ctx.minX), TileIndex(ctx.maxX);
      var loY, hiY := TileIndex(ctx.minY), TileIndex(ctx.maxY);
      var flip := ctx.scale > 1.0;
      ghost var env := Env(TileUrlFor(url, z, isUrl), hiY, flip, net.content);
      forall x: Int, y: Int
        ensures UrlAt(env, url, x, y, z, isUrl)
      {
      }
      trapped := DrawGrid(ctx, net, env, loX, hiX, loY, hiY, z, flip, isUrl);
    }
  }
}
