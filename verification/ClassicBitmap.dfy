/** The bitmap path for clients without graphics codecs (src/rdp_bitmap.c, src/bitmap_diff.h): dirty
    tiles, packed to RGB565, sent in slices that yield to a slow socket. */
module ClassicBitmapSpec {
  import opened Machine

  const TILE := 64

  // ------------------------------------------------ pictures and canvases

  /** Where the four bytes (blue, green, red, padding) of a pixel start. */
  function Index(w: nat, x: nat, y: nat): nat { (y * w + x) * 4 }

  predicate Inside(w: nat, h: nat, x: int, y: int) { 0 <= x < w && 0 <= y < h }

  lemma IndexInside(w: nat, h: nat, x: nat, y: nat)
    requires Inside(w, h, x, y)
    ensures Index(w, x, y) + 4 <= w * h * 4
  {
    assert (y + 1) * w <= h * w;
  }

  function Rgb565(b: byte, g: byte, r: byte): u16 { r / 8 * 2048 + g / 4 * 32 + b / 8 }

  function ColorAt(w: nat, picture: seq<byte>, x: nat, y: nat): u16 {
    var i := Index(w, x, y);
    if i + 3 <= |picture| then Rgb565(picture[i], picture[i + 1], picture[i + 2]) else 0
  }

  /** The visible channels of a pixel are the same in both pictures. */
  predicate SameRgb(w: nat, a: seq<byte>, b: seq<byte>, x: nat, y: nat) {
    var i := Index(w, x, y);
    i + 3 <= |a| && i + 3 <= |b| && a[i] == b[i] && a[i + 1] == b[i + 1] && a[i + 2] == b[i + 2]
  }

  lemma SameRgbSameColor(w: nat, a: seq<byte>, b: seq<byte>, x: nat, y: nat)
    requires SameRgb(w, a, b, x, y)
    ensures ColorAt(w, a, x, y) == ColorAt(w, b, x, y)
  {
  }

  /** What the client shows, pixel by pixel. */
  type Canvas = (nat, nat) -> u16

  ghost predicate Shows(w: nat, h: nat, canvas: Canvas, picture: seq<byte>) {
    forall x: nat, y: nat :: Inside(w, h, x, y) ==> canvas(x, y) == ColorAt(w, picture, x, y)
  }

  datatype Tile = Tile(left: nat, top: nat, columns: nat, rows: nat)

  predicate InTile(t: Tile, x: nat, y: nat) {
    t.left <= x < t.left + t.columns && t.top <= y < t.top + t.rows
  }

  /** One rectangle of a bitmap update: two bytes a pixel, row by row, low byte first. */
  datatype Rectangle = Rectangle(tile: Tile, data: seq<byte>)

  function DataColor(columns: nat, data: seq<byte>, i: nat, j: nat): u16 {
    var k := (j * columns + i) * 2;
    if k + 2 <= |data| then data[k] + (data[k + 1] as int) * 0x100 else 0
  }

  function Draw(canvas: Canvas, r: Rectangle): Canvas {
    (x: nat, y: nat) => if InTile(r.tile, x, y) then DataColor(r.tile.columns, r.data, x - r.tile.left, y - r.tile.top)
                        else canvas(x, y)
  }

  function DrawAll(canvas: Canvas, rs: seq<Rectangle>): Canvas {
    if rs == [] then canvas else Draw(DrawAll(canvas, rs[..|rs| - 1]), rs[|rs| - 1])
  }

  // ------------------------------------------------ the order of tiles

  function TileAt(w: nat, h: nat, left: nat, top: nat): Tile
    requires left < w && top < h
  {
    Tile(left, top, Min(TILE, w - left), Min(TILE, h - top))
  }

  /** The pixel lies in a tile that comes before the one at (left, top). */
  predicate Before(left: nat, top: nat, x: nat, y: nat) { y < top || (y < top + TILE && x < left) }

  function Tiles(length: int): nat { if length <= 0 then 0 else (length + TILE - 1) / TILE }

  /** How many tiles are left from (left, top) on. */
  function Remaining(w: nat, h: nat, left: nat, top: nat): nat {
    if top >= h then 0 else Tiles(w - left) + Tiles(h - top - TILE) * Tiles(w)
  }

  lemma NextTileIsCloser(w: nat, h: nat, left: nat, top: nat)
    requires left < w && top < h
    ensures Remaining(w, h, left + TILE, top) == Remaining(w, h, left, top) - 1
  {
    assert Tiles(w - left - TILE) == Tiles(w - left) - 1;
  }

  lemma NextRowIsSame(w: nat, h: nat, left: nat, top: nat)
    requires w <= left && top < h
    ensures Remaining(w, h, 0, top + TILE) == Remaining(w, h, left, top)
  {
    if top + TILE < h {
      var n := Tiles(h - top - TILE - TILE);
      assert Tiles(h - top - TILE) == n + 1;
      assert (n + 1) * Tiles(w) == n * Tiles(w) + Tiles(w);
    }
  }

  // ------------------------------------------------ what a slice keeps

  /** Up to (left, top) the client shows the frame and the cache holds it; if the cache is valid, the
      client shows the cache everywhere. */
  ghost predicate Synced(w: nat, h: nat, frame: seq<byte>, cache: seq<byte>, valid: bool, shown: Canvas, left: nat,
                         top: nat) {
    forall x: nat, y: nat :: Inside(w, h, x, y) ==> SyncedAt(w, frame, cache, valid, shown, left, top, x, y)
  }

  predicate SyncedAt(w: nat, frame: seq<byte>, cache: seq<byte>, valid: bool, shown: Canvas, left: nat, top: nat,
                     x: nat, y: nat) {
    && (Before(left, top, x, y) ==> shown(x, y) == ColorAt(w, frame, x, y) && SameRgb(w, cache, frame, x, y))
    && (valid ==> shown(x, y) == ColorAt(w, cache, x, y))
  }

  ghost predicate SameInTile(w: nat, a: seq<byte>, b: seq<byte>, t: Tile) {
    forall x: nat, y: nat :: InTile(t, x, y) ==> SameRgb(w, a, b, x, y)
  }

  /** A tile of `from` was copied over the one in `before`. */
  ghost predicate TileCopied(w: nat, h: nat, before: seq<byte>, from: seq<byte>, after: seq<byte>, t: Tile) {
    forall x: nat, y: nat :: Inside(w, h, x, y) ==> SameRgb(w, after, if InTile(t, x, y) then from else before, x, y)
  }

  ghost predicate TilePacked(w: nat, picture: seq<byte>, r: Rectangle) {
    forall x: nat, y: nat :: InTile(r.tile, x, y) ==>
      DataColor(r.tile.columns, r.data, x - r.tile.left, y - r.tile.top) == ColorAt(w, picture, x, y)
  }

  /** A pixel before the next tile is before this one, or in it. */
  lemma BeforeNext(w: nat, h: nat, left: nat, top: nat, x: nat, y: nat)
    requires left < w && top < h && Inside(w, h, x, y)
    ensures Before(left + TILE, top, x, y) ==> Before(left, top, x, y) || InTile(TileAt(w, h, left, top), x, y)
  {
  }

  lemma SkippedTileIsSynced(w: nat, h: nat, frame: seq<byte>, cache: seq<byte>, shown: Canvas, left: nat, top: nat)
    requires left < w && top < h && Synced(w, h, frame, cache, true, shown, left, top)
    requires SameInTile(w, cache, frame, TileAt(w, h, left, top))
    ensures Synced(w, h, frame, cache, true, shown, left + TILE, top)
  {
    hide Before, ColorAt, SameRgb, InTile;
    forall x: nat, y: nat | Inside(w, h, x, y) ensures SyncedAt(w, frame, cache, true, shown, left + TILE, top, x, y) {
      assert SyncedAt(w, frame, cache, true, shown, left, top, x, y);
      BeforeNext(w, h, left, top, x, y);
      if InTile(TileAt(w, h, left, top), x, y) { SameRgbSameColor(w, cache, frame, x, y); }
    }
  }

  lemma SentTileIsSynced(w: nat, h: nat, frame: seq<byte>, cache: seq<byte>, after: seq<byte>, valid: bool,
                         shown: Canvas, left: nat, top: nat, r: Rectangle)
    requires left < w && top < h && Synced(w, h, frame, cache, valid, shown, left, top)
    requires r.tile == TileAt(w, h, left, top) && TilePacked(w, frame, r)
             && TileCopied(w, h, cache, frame, after, r.tile)
    ensures Synced(w, h, frame, after, valid, Draw(shown, r), left + TILE, top)
  {
    hide Before, ColorAt, InTile, DataColor;
    forall x: nat, y: nat | Inside(w, h, x, y)
      ensures SyncedAt(w, frame, after, valid, Draw(shown, r), left + TILE, top, x, y)
    {
      assert SyncedAt(w, frame, cache, valid, shown, left, top, x, y);
      BeforeNext(w, h, left, top, x, y);
      var source := if InTile(r.tile, x, y) then frame else cache;
      assert SameRgb(w, after, source, x, y);
      SameRgbSameColor(w, after, source, x, y);
    }
  }

  /** Past the last column the next row begins. */
  lemma RowDone(w: nat, h: nat, frame: seq<byte>, cache: seq<byte>, valid: bool, shown: Canvas, left: nat, top: nat)
    requires w <= left && Synced(w, h, frame, cache, valid, shown, left, top)
    ensures Synced(w, h, frame, cache, valid, shown, 0, top + TILE)
  {
    hide ColorAt, SameRgb;
    forall x: nat, y: nat | Inside(w, h, x, y) ensures SyncedAt(w, frame, cache, valid, shown, 0, top + TILE, x, y) {
      assert SyncedAt(w, frame, cache, valid, shown, left, top, x, y);
    }
  }

  /** Past the last row the frame is on the screen, and so is the cache. */
  lemma FrameDone(w: nat, h: nat, frame: seq<byte>, cache: seq<byte>, valid: bool, shown: Canvas, left: nat, top: nat)
    requires h <= top && Synced(w, h, frame, cache, valid, shown, left, top)
    ensures Shows(w, h, shown, frame) && Shows(w, h, shown, cache)
  {
    hide ColorAt, SameRgb;
    forall x: nat, y: nat | Inside(w, h, x, y)
      ensures shown(x, y) == ColorAt(w, frame, x, y) == ColorAt(w, cache, x, y)
    {
      assert SyncedAt(w, frame, cache, valid, shown, left, top, x, y);
      SameRgbSameColor(w, cache, frame, x, y);
    }
  }

  /** Any frame may start when the cache, if valid, is on the screen. */
  lemma NewFrame(w: nat, h: nat, frame: seq<byte>, cache: seq<byte>, valid: bool, shown: Canvas)
    requires valid ==> Shows(w, h, shown, cache)
    ensures Synced(w, h, frame, cache, valid, shown, 0, 0)
  {
    hide ColorAt, SameRgb;
    forall x: nat, y: nat | Inside(w, h, x, y) ensures SyncedAt(w, frame, cache, valid, shown, 0, 0, x, y) {
    }
  }

  // ------------------------------------------------ what the client draws

  /** The picture of a client that has drawn these updates. */
  function DrawUpdates(screen: Canvas, updates: seq<seq<Rectangle>>): Canvas {
    if updates == [] then screen else DrawAll(DrawUpdates(screen, updates[..|updates| - 1]), updates[|updates| - 1])
  }

  lemma DrawnMore(screen: Canvas, updates: seq<seq<Rectangle>>, update: seq<Rectangle>)
    ensures DrawUpdates(screen, updates + [update]) == DrawAll(DrawUpdates(screen, updates), update)
  {
    assert (updates + [update])[..|updates|] == updates;
  }

  const START_SIZE := 1024
  const RECTANGLE_OVERHEAD := 16

  /** The size of an update as the sender counts it. */
  function UpdateSize(rs: seq<Rectangle>): nat {
    if rs == [] then START_SIZE else UpdateSize(rs[..|rs| - 1]) + |rs[|rs| - 1].data| + RECTANGLE_OVERHEAD
  }

  /** How many rectangles an update may hold, and the size it stays below. */
  datatype Limits = Limits(batch: nat, size: nat)

  /** At most a batch of rectangles, and below the size unless there is only one. */
  predicate UpdateFits(limits: Limits, rs: seq<Rectangle>) {
    |rs| <= limits.batch && (|rs| > 1 ==> UpdateSize(rs) < limits.size)
  }

  // ------------------------------------------------ how far a call gets

  /** What the outside decides during one call: whether the client is to stop and the socket is writable at the start,
      and at each tile whether the time is up, a write succeeds, and the socket is still writable after it. */
  datatype Slice = Slice(stopping: bool, writable: bool, late: (nat, nat) -> bool,
                         fullWrote: (nat, nat) -> bool, fullReady: (nat, nat) -> bool,
                         batchWrote: (nat, nat) -> bool, blocked: (nat, nat) -> bool, lastWrote: bool)

  datatype Status = Next | Yielded | Failed

  /** Rectangles not yet written, the size of the update they make, and tiles sent in this call. */
  datatype Load = Load(count: nat, size: nat, tiles: nat)

  const NO_LOAD: Load := Load(0, START_SIZE, 0)

  function Emptied(load: Load): Load { load.(count := 0, size := START_SIZE) }

  /** There is no room for a rectangle of this length. */
  predicate Full(limits: Limits, load: Load, length: nat) {
    load.count > 0 && load.size + length + RECTANGLE_OVERHEAD >= limits.size
  }

  /** A full update goes out before another tile is added to it. */
  function Room(limits: Limits, load: Load, length: nat, slice: Slice, left: nat, top: nat): (Load, Status) {
    if !Full(limits, load, length) then (load, Next)
    else if !slice.fullWrote(left, top) then (load, Failed)
    else (Emptied(load), if slice.fullReady(left, top) then Next else Yielded)
  }

  /** A complete batch goes out at once. */
  function Batched(limits: Limits, load: Load, slice: Slice, left: nat, top: nat): (Load, Status) {
    if load.count != limits.batch then (load, Next)
    else if !slice.batchWrote(left, top) then (load, Failed)
    else (Emptied(load), if slice.blocked(left, top) then Yielded else Next)
  }

  function Added(load: Load, length: nat): Load {
    Load(load.count + 1, load.size + length + RECTANGLE_OVERHEAD, load.tiles + 1)
  }

  function ChangedTile(limits: Limits, load: Load, length: nat, slice: Slice, left: nat, top: nat): (Load, Status) {
    var (room, status) := Room(limits, load, length, slice, left, top);
    if status != Next then (room, status) else Batched(limits, Added(room, length), slice, left, top)
  }

  /** The body of the tile loop. */
  function OneTile(limits: Limits, load: Load, changed: bool, length: nat, slice: Slice, left: nat, top: nat)
    : (Load, Status)
  {
    if load.tiles >= 1 && slice.late(left, top) then (load, Yielded)
    else if !changed then (load, Next)
    else ChangedTile(limits, load, length, slice, left, top)
  }

  /** A frame on its way: its size, the limits, the cache when the call began, the frame. */
  datatype Job = Job(w: nat, h: nat, limits: Limits, cache: seq<byte>, valid: bool, frame: seq<byte>)

  /** The tile has to be sent. */
  ghost predicate Dirty(job: Job, left: nat, top: nat)
    requires left < job.w && top < job.h
  {
    !job.valid || !SameInTile(job.w, job.cache, job.frame, TileAt(job.w, job.h, left, top))
  }

  function TileLength(w: nat, h: nat, left: nat, top: nat): nat
    requires left < w && top < h
  {
    var t := TileAt(w, h, left, top);
    t.columns * t.rows * 2
  }

  ghost function TileOf(job: Job, load: Load, slice: Slice, left: nat, top: nat): (Load, Status)
    requires left < job.w && top < job.h
  {
    OneTile(job.limits, load, Dirty(job, left, top), TileLength(job.w, job.h, left, top), slice, left, top)
  }

  /** The tiles of one row, from `left` on. */
  ghost function RowOfTiles(job: Job, load: Load, slice: Slice, left: nat, top: nat): (Load, Status)
    requires top < job.h
    decreases job.w - left
  {
    if left >= job.w then (load, Next)
    else
      var (next, status) := TileOf(job, load, slice, left, top);
      if status != Next then (next, status) else RowOfTiles(job, next, slice, left + TILE, top)
  }

  /** All tiles from (left, top) on. */
  ghost function AllTiles(job: Job, load: Load, slice: Slice, left: nat, top: nat): (Load, Status)
    decreases job.h - top
  {
    if top >= job.h then (load, Next)
    else
      var (next, status) := RowOfTiles(job, load, slice, left, top);
      if status != Next then (next, status) else AllTiles(job, next, slice, 0, top + TILE)
  }

  /** Every write that the call comes to make from (left, top) on succeeds. */
  ghost predicate Writes(job: Job, slice: Slice, left: nat, top: nat) {
    var (load, status) := AllTiles(job, NO_LOAD, slice, left, top);
    status != Failed && (load.count > 0 ==> slice.lastWrote)
  }

  /** The time does not run out and the socket stays writable. */
  ghost predicate Smooth(slice: Slice) {
    slice.writable && forall x: nat, y: nat :: !slice.late(x, y) && slice.fullReady(x, y) && !slice.blocked(x, y)
  }

  /** Some write the slice could make would fail. */
  ghost predicate SomeWriteFails(slice: Slice) {
    !slice.lastWrote || exists x: nat, y: nat :: !slice.fullWrote(x, y) || !slice.batchWrote(x, y)
  }

  lemma TileFailure(job: Job, load: Load, slice: Slice, left: nat, top: nat)
    requires left < job.w && top < job.h && TileOf(job, load, slice, left, top).1 == Failed
    ensures SomeWriteFails(slice)
  {
    hide Dirty;
    assert !slice.fullWrote(left, top) || !slice.batchWrote(left, top);
  }

  lemma {:induction false} RowFailure(job: Job, load: Load, slice: Slice, left: nat, top: nat)
    requires top < job.h && RowOfTiles(job, load, slice, left, top).1 == Failed
    ensures SomeWriteFails(slice)
    decreases job.w - left
  {
    hide TileOf, SomeWriteFails;
    var (next, status) := TileOf(job, load, slice, left, top);
    if status == Failed {
      TileFailure(job, load, slice, left, top);
    } else {
      RowFailure(job, next, slice, left + TILE, top);
    }
  }

  lemma {:induction false} FailureIsWrite(job: Job, load: Load, slice: Slice, left: nat, top: nat)
    requires AllTiles(job, load, slice, left, top).1 == Failed
    ensures SomeWriteFails(slice)
    decreases job.h - top
  {
    hide RowOfTiles, SomeWriteFails;
    var (next, status) := RowOfTiles(job, load, slice, left, top);
    if status == Failed {
      RowFailure(job, load, slice, left, top);
    } else {
      FailureIsWrite(job, next, slice, 0, top + TILE);
    }
  }

  // ------------------------------------------------ the cache ahead

  /** From (left, top) on the cache is still the one the call began with. */
  ghost predicate Ahead(w: nat, h: nat, start: seq<byte>, cache: seq<byte>, left: nat, top: nat) {
    forall x: nat, y: nat :: Inside(w, h, x, y) && !Before(left, top, x, y) ==> SameRgb(w, cache, start, x, y)
  }

  lemma AheadAtStart(w: nat, h: nat, cache: seq<byte>, left: nat, top: nat)
    requires |cache| == w * h * 4
    ensures Ahead(w, h, cache, cache, left, top)
  {
    forall x: nat, y: nat | Inside(w, h, x, y) ensures SameRgb(w, cache, cache, x, y) {
      hide Index;
      IndexInside(w, h, x, y);
    }
  }

  lemma SameAhead(w: nat, h: nat, start: seq<byte>, cache: seq<byte>, frame: seq<byte>, left: nat, top: nat)
    requires left < w && top < h && Ahead(w, h, start, cache, left, top)
    ensures var t := TileAt(w, h, left, top); SameInTile(w, cache, frame, t) <==> SameInTile(w, start, frame, t)
  {
    hide Index;
    var t := TileAt(w, h, left, top);
    assert forall x: nat, y: nat :: InTile(t, x, y) ==> Inside(w, h, x, y) && !Before(left, top, x, y);
    assert forall x: nat, y: nat :: InTile(t, x, y) ==> SameRgb(w, cache, start, x, y);
    if SameInTile(w, cache, frame, t) {
      forall x: nat, y: nat | InTile(t, x, y) ensures SameRgb(w, start, frame, x, y) {
        assert SameRgb(w, cache, frame, x, y);
      }
    }
    if SameInTile(w, start, frame, t) {
      forall x: nat, y: nat | InTile(t, x, y) ensures SameRgb(w, cache, frame, x, y) {
        assert SameRgb(w, start, frame, x, y);
      }
    }
  }

  lemma AheadSkips(w: nat, h: nat, start: seq<byte>, cache: seq<byte>, left: nat, top: nat)
    requires Ahead(w, h, start, cache, left, top)
    ensures Ahead(w, h, start, cache, left + TILE, top)
    ensures w <= left ==> Ahead(w, h, start, cache, 0, top + TILE)
  {
    hide SameRgb;
  }

  lemma AheadCopied(w: nat, h: nat, start: seq<byte>, cache: seq<byte>, frame: seq<byte>, after: seq<byte>, left: nat,
                    top: nat)
    requires left < w && top < h && Ahead(w, h, start, cache, left, top)
    requires TileCopied(w, h, cache, frame, after, TileAt(w, h, left, top))
    ensures Ahead(w, h, start, after, left + TILE, top)
  {
    hide Index;
    var t := TileAt(w, h, left, top);
    forall x: nat, y: nat | Inside(w, h, x, y) && !Before(left + TILE, top, x, y)
      ensures SameRgb(w, after, start, x, y)
    {
      assert !InTile(t, x, y) && !Before(left, top, x, y);
      assert SameRgb(w, after, cache, x, y) && SameRgb(w, cache, start, x, y);
    }
  }
}

module ClassicBitmap {
  import opened Machine
  import opened ClassicBitmapSpec

  /** A tile of a picture of this size. */
  predicate TileFits(w: nat, h: nat, t: Tile) { t.left + t.columns <= w && t.top + t.rows <= h }

  lemma TilePixel(w: nat, h: nat, t: Tile, i: nat, j: nat)
    requires TileFits(w, h, t) && i < t.columns && j < t.rows
    ensures Inside(w, h, t.left + i, t.top + j)
    ensures Index(w, t.left + i, t.top + j) == ((t.top + j) * w + t.left) * 4 + i * 4
    ensures ((t.top + j) * w + t.left) * 4 + i * 4 + 4 <= w * h * 4
  {
    IndexInside(w, h, t.left + i, t.top + j);
  }

  /** bitmap_tile_changed: false exactly when every visible channel of the tile is the same. */
  method TileChanged(previous: array<byte>, current: array<byte>, w: nat, h: nat, t: Tile) returns (changed: bool)
    requires previous.Length == current.Length == w * h * 4 && TileFits(w, h, t)
    ensures !changed <==> SameInTile(w, previous[..], current[..], t)
  {
    var row := 0;
    while row < t.rows
      invariant 0 <= row <= t.rows
      invariant forall x: nat, y: nat :: InTile(t, x, y) && y < t.top + row ==>
                SameRgb(w, previous[..], current[..], x, y)
    {
      var offset := ((t.top + row) * w + t.left) * 4;
      var column := 0;
      while column < t.columns
        invariant 0 <= column <= t.columns
        invariant forall x: nat, y: nat | InTile(t, x, y) ::
                    y < t.top + row || (y == t.top + row && x < t.left + column) ==>
                      SameRgb(w, previous[..], current[..], x, y)
      {
        hide Index;
        TilePixel(w, h, t, column, row);
        var pixel := offset + column * 4;
        if previous[pixel] != current[pixel] || previous[pixel + 1] != current[pixel + 1]
            || previous[pixel + 2] != current[pixel + 2] {
          assert InTile(t, t.left + column, t.top + row)
              && !SameRgb(w, previous[..], current[..], t.left + column, t.top + row);
          return true;
        }
        column := column + 1;
      }
      row := row + 1;
    }
    changed := false;
  }

  /** classic_tile_copy. */
  method TileCopy(destination: array<byte>, source: array<byte>, w: nat, h: nat, t: Tile)
    requires destination.Length == source.Length == w * h * 4 && destination != source && TileFits(w, h, t)
    modifies destination
    ensures TileCopied(w, h, old(destination[..]), source[..], destination[..], t)
  {
    hide Index, SameRgb;
    ghost var before := destination[..];
    NothingCopied(w, h, before, source[..], t.(rows := 0));
    var row := 0;
    while row < t.rows
      invariant 0 <= row <= t.rows
      invariant TileCopied(w, h, before, source[..], destination[..], t.(rows := row))
    {
      ghost var partly := destination[..];
      CopyRow(destination, source, w, h, t, row);
      MoreRowsCopied(w, h, before, source[..], partly, destination[..], t, row);
      row := row + 1;
    }
  }

  /** One memcpy of classic_tile_copy. */
  method CopyRow(destination: array<byte>, source: array<byte>, w: nat, h: nat, t: Tile, row: nat)
    requires destination.Length == source.Length == w * h * 4 && destination != source && TileFits(w, h, t)
             && row < t.rows
    modifies destination
    ensures TileCopied(w, h, old(destination[..]), source[..], destination[..], RowOf(t, row))
  {
    var length := t.columns * 4;
    var offset := ((t.top + row) * w + t.left) * 4;
    RowInside(w, h, t, row);
    ghost var before := destination[..];
    forall k | offset <= k < offset + length { destination[k] := source[k]; }
    BytesCopied(w, h, before, source[..], destination[..], t, row);
  }

  lemma RowInside(w: nat, h: nat, t: Tile, row: nat)
    requires TileFits(w, h, t) && row < t.rows
    ensures ((t.top + row) * w + t.left) * 4 + t.columns * 4 <= w * h * 4
  {
    RowsApart(w, t.top + row, h);
  }

  lemma BytesCopied(w: nat, h: nat, before: seq<byte>, from: seq<byte>, after: seq<byte>, t: Tile, row: nat)
    requires TileFits(w, h, t) && row < t.rows && |before| == |from| == |after| == w * h * 4
    requires var offset := ((t.top + row) * w + t.left) * 4;
             forall k :: 0 <= k < |after| ==>
                 after[k] == if offset <= k < offset + t.columns * 4 then from[k] else before[k]
    ensures TileCopied(w, h, before, from, after, RowOf(t, row))
  {
    forall x: nat, y: nat | Inside(w, h, x, y)
      ensures SameRgb(w, after, if InTile(RowOf(t, row), x, y) then from else before, x, y)
    {
      hide Index;
      IndexInside(w, h, x, y);
      if InTile(RowOf(t, row), x, y) { TilePixel(w, h, t, x - t.left, row); } else { OutsideRow(w, h, t, row, x, y); }
    }
  }

  function RowOf(t: Tile, row: nat): Tile { Tile(t.left, t.top + row, t.columns, 1) }

  /** A pixel outside the row shares no byte with it. */
  lemma OutsideRow(w: nat, h: nat, t: Tile, row: nat, x: nat, y: nat)
    requires TileFits(w, h, t) && row < t.rows && Inside(w, h, x, y) && !InTile(RowOf(t, row), x, y)
    ensures var offset := ((t.top + row) * w + t.left) * 4;
            Index(w, x, y) + 4 <= offset || offset + t.columns * 4 <= Index(w, x, y)
  {
    var v := t.top + row;
    if y < v { RowsApart(w, y, v); }
    if v < y { RowsApart(w, v, y); }
  }

  lemma RowsApart(w: nat, above: nat, below: nat)
    requires above < below
    ensures above * w + w <= below * w
  {
    var d := below - above - 1;
    assert below * w == (above + 1 + d) * w == above * w + w + d * w;
  }

  lemma NothingCopied(w: nat, h: nat, before: seq<byte>, from: seq<byte>, t: Tile)
    requires |before| == w * h * 4 && t.rows == 0
    ensures TileCopied(w, h, before, from, before, t)
  {
    forall x: nat, y: nat | Inside(w, h, x, y) ensures SameRgb(w, before, before, x, y) {
      hide Index;
      IndexInside(w, h, x, y);
    }
  }

  lemma MoreRowsCopied(w: nat, h: nat, before: seq<byte>, from: seq<byte>, partly: seq<byte>, after: seq<byte>, t: Tile,
                       row: nat)
    requires row < t.rows
    requires TileCopied(w, h, before, from, partly, t.(rows := row))
             && TileCopied(w, h, partly, from, after, RowOf(t, row))
    ensures TileCopied(w, h, before, from, after, t.(rows := row + 1))
  {
    hide Index;
    forall x: nat, y: nat | Inside(w, h, x, y)
      ensures SameRgb(w, after, if InTile(t.(rows := row + 1), x, y) then from else before, x, y)
    {
      assert SameRgb(w, after, if InTile(RowOf(t, row), x, y) then from else partly, x, y);
      assert SameRgb(w, partly, if InTile(t.(rows := row), x, y) then from else before, x, y);
    }
  }

  lemma RowMajor(columns: nat, i: nat, j: nat, column: nat, row: nat)
    requires i < columns && column <= columns && (j < row || (j == row && i < column))
    ensures (j * columns + i) * 2 + 2 <= (row * columns + column) * 2
  {
    if j < row { assert (j + 1) * columns <= row * columns; }
  }

  /** classic_pack_rgb16. */
  method PackTile(bgra: array<byte>, w: nat, h: nat, t: Tile) returns (data: seq<byte>)
    requires bgra.Length == w * h * 4 && TileFits(w, h, t)
    ensures |data| == t.columns * t.rows * 2 && TilePacked(w, bgra[..], Rectangle(t, data))
  {
    hide Rgb565, LowByte, HighByte, DataColor, Index;
    data := [];
    var row := 0;
    while row < t.rows
      invariant 0 <= row <= t.rows && PackedUpTo(w, bgra[..], t, data, 0, row)
    {
      var offset := ((t.top + row) * w + t.left) * 4;
      var column := 0;
      while column < t.columns
        invariant 0 <= column <= t.columns && PackedUpTo(w, bgra[..], t, data, column, row)
      {
        TilePixel(w, h, t, column, row);
        var pixel := offset + column * 4;
        var color: u16 := Rgb565(bgra[pixel], bgra[pixel + 1], bgra[pixel + 2]);
        var low, high := LowByte(color), HighByte(color);
        BytesOfColor(color);
        PackedOneMore(w, bgra[..], t, data, column, row, low, high);
        data := data + [low] + [high];
        column := column + 1;
      }
      PackedRow(w, bgra[..], t, data, row);
      row := row + 1;
    }
  }

  function LowByte(color: u16): byte { color % 0x100 }

  function HighByte(color: u16): byte { color / 0x100 }

  lemma BytesOfColor(color: u16)
    ensures LowByte(color) + (HighByte(color) as int) * 0x100 == color
  {
  }

  /** The pixels before (column, row) of the tile are packed, and no more. */
  ghost predicate PackedUpTo(w: nat, picture: seq<byte>, t: Tile, data: seq<byte>, column: nat, row: nat) {
    && |data| == (row * t.columns + column) * 2
    && forall x: nat, y: nat :: InTile(t, x, y) && (y < t.top + row || (y == t.top + row && x < t.left + column)) ==>
         DataColor(t.columns, data, x - t.left, y - t.top) == ColorAt(w, picture, x, y)
  }

  lemma PackedOneMore(w: nat, picture: seq<byte>, t: Tile, data: seq<byte>, column: nat, row: nat, low: byte,
                      high: byte)
    requires column < t.columns && row < t.rows && PackedUpTo(w, picture, t, data, column, row)
    requires low + (high as int) * 0x100 == ColorAt(w, picture, t.left + column, t.top + row)
    ensures PackedUpTo(w, picture, t, data + [low] + [high], column + 1, row)
  {
    hide ColorAt;
    var more := data + [low] + [high];
    forall x: nat, y: nat | InTile(t, x, y) && (y < t.top + row || (y == t.top + row && x < t.left + column + 1))
      ensures DataColor(t.columns, more, x - t.left, y - t.top) == ColorAt(w, picture, x, y)
    {
      if y < t.top + row || x < t.left + column {
        RowMajor(t.columns, x - t.left, y - t.top, column, row);
        assert DataColor(t.columns, data, x - t.left, y - t.top) == ColorAt(w, picture, x, y);
      }
    }
  }

  lemma PackedRow(w: nat, picture: seq<byte>, t: Tile, data: seq<byte>, row: nat)
    requires PackedUpTo(w, picture, t, data, t.columns, row)
    ensures PackedUpTo(w, picture, t, data, 0, row + 1)
  {
    hide ColorAt, DataColor;
    assert (row + 1) * t.columns == row * t.columns + t.columns;
  }

  lemma LateIsNotSmooth(slice: Slice, x: nat, y: nat)
    requires slice.late(x, y)
    ensures !Smooth(slice)
  {
  }

  class ClassicOutput {
    const width: nat
    const height: nat
    const limits: Limits
    const previous: array<byte>
    var previousValid: bool
    var resumeLeft: nat
    var resumeTop: nat
    var frameOpen: bool

    /** The updates written so far, and what the client showed before them. */
    var wire: seq<seq<Rectangle>>
    ghost const screen: Canvas

    /** Rectangles not yet written, the size of the update they make, and tiles sent in this call. */
    var pending: seq<Rectangle>
    var updateSize: nat
    var frameTiles: nat

    ghost predicate Valid()
      reads this
    {
      && 0 < width <= 8192 && 0 < height <= 8192 && 0 < limits.batch && previous.Length == width * height * 4
      && resumeLeft < width && (!frameOpen ==> resumeLeft == 0 && resumeTop == 0)
      && updateSize == UpdateSize(pending) && UpdateFits(limits, pending)
      && forall i :: 0 <= i < |wire| ==> wire[i] != [] && UpdateFits(limits, wire[i])
    }

    /** What the client shows. */
    ghost function Shown(): Canvas
      reads this`wire
    {
      DrawUpdates(screen, wire)
    }

    ghost function Carried(): Load
      reads this
    {
      Load(|pending|, updateSize, frameTiles)
    }

    /** The client's picture agrees with this frame up to (left, top), and with the cache. */
    ghost predicate SyncedTo(frame: array<byte>, left: nat, top: nat)
      reads this, previous, frame
    {
      Synced(width, height, frame[..], previous[..], previousValid, DrawAll(Shown(), pending), left, top)
    }

    /** Between calls: nothing is pending, and the frame being sent is shown up to the resume point. */
    ghost predicate Between(frame: array<byte>)
      reads this, previous, frame
    {
      Valid() && pending == [] && SyncedTo(frame, resumeLeft, resumeTop)
    }

    /** Between frames: a valid cache is what the client shows. */
    ghost predicate AtRest()
      reads this, previous
    {
      Valid() && pending == [] && !frameOpen && (previousValid ==> Shows(width, height, Shown(), previous[..]))
    }

    ghost function JobOf(frame: array<byte>): Job
      reads this, previous, frame
    {
      Job(width, height, limits, previous[..], previousValid, frame[..])
    }

    /** The job is this frame, and the cache from (left, top) on the one it began with. */
    ghost predicate OnJob(job: Job, frame: array<byte>, left: nat, top: nat)
      reads this, previous, frame
    {
      && job.w == width && job.h == height && job.limits == limits && job.valid == previousValid
          && job.frame == frame[..]
      && Ahead(width, height, job.cache, previous[..], left, top)
    }

    function RemainingTiles(): nat
      reads this
    {
      Remaining(width, height, resumeLeft, resumeTop)
    }

    constructor (w: nat, h: nat, rectangles: nat, limit: nat, shown: Canvas)
      requires 0 < w <= 8192 && 0 < h <= 8192 && 0 < rectangles
      ensures width == w && height == h && limits == Limits(rectangles, limit) && screen == shown && wire == []
      ensures AtRest() && fresh(previous)
    {
      width, height, limits, screen, wire := w, h, Limits(rectangles, limit), shown, [];
      previous := new byte[w * h * 4];
      previousValid, resumeLeft, resumeTop, frameOpen := false, 0, 0, false;
      pending, updateSize, frameTiles := [], START_SIZE, 0;
    }

    /** BitmapUpdate: what is pending reaches the client, unless the write fails. */
    method Write(wrote: bool) returns (ok: bool)
      requires Valid() && pending != []
      modifies this`wire, this`pending, this`updateSize
      ensures Valid() && ok == wrote && Carried() == if ok then Emptied(old(Carried())) else old(Carried())
      ensures if ok then pending == [] && wire == old(wire) + [old(pending)]
              && Shown() == old(DrawAll(Shown(), pending))
              else unchanged(this`pending, this`wire)
    {
      if !wrote { return false; }
      DrawnMore(screen, wire, pending);
      wire, pending, updateSize := wire + [pending], [], START_SIZE;
      ok := true;
    }

    method Yield(left: nat, top: nat)
      modifies this`resumeLeft, this`resumeTop, this`frameOpen
      ensures resumeLeft == left && resumeTop == top && frameOpen
    {
      resumeLeft, resumeTop, frameOpen := left, top, true;
    }

    /** One tile is packed, remembered and put into the pending update. */
    method Encode(frame: array<byte>, left: nat, top: nat, ghost job: Job)
      requires Valid() && left < width && top < height && frame.Length == width * height * 4 && frame != previous
      requires SyncedTo(frame, left, top) && OnJob(job, frame, left, top)
      requires |pending| < limits.batch && !Full(limits, Carried(), TileLength(width, height, left, top))
      modifies this`pending, this`updateSize, this`frameTiles, previous
      ensures Valid() && SyncedTo(frame, left + TILE, top) && OnJob(job, frame, left + TILE, top)
      ensures Carried() == Added(old(Carried()), TileLength(width, height, left, top))
    {
      hide Synced, Draw, TilePacked, TileCopied, Ahead;
      var t := TileAt(width, height, left, top);
      ghost var cache, shown := previous[..], DrawAll(Shown(), pending);
      var data := PackTile(frame, width, height, t);
      var r := Rectangle(t, data);
      TileCopy(previous, frame, width, height, t);
      SentTileIsSynced(width, height, frame[..], cache, previous[..], previousValid, shown, left, top, r);
      AheadCopied(width, height, job.cache, cache, frame[..], previous[..], left, top);
      assert (pending + [r])[..|pending|] == pending;
      pending := pending + [r];
      updateSize := updateSize + |data| + RECTANGLE_OVERHEAD;
      frameTiles := frameTiles + 1;
    }

    /** A full update goes out before another tile is added to it. */
    method MakeRoom(left: nat, top: nat, length: nat, slice: Slice) returns (status: Status)
      requires Valid() && left < width
      modifies this`wire, this`pending, this`updateSize, this`resumeLeft, this`resumeTop, this`frameOpen
      ensures Valid() && (Carried(), status) == Room(limits, old(Carried()), length, slice, left, top)
      ensures if Full(limits, old(Carried()), length) && !status.Failed? then
                pending == [] && wire == old(wire) + [old(pending)] && Shown() == old(DrawAll(Shown(), pending))
              else unchanged(this`pending, this`wire)
      ensures status.Yielded? ==> resumeLeft == left && resumeTop == top && frameOpen
      ensures !status.Yielded? ==> unchanged(this`resumeLeft, this`resumeTop, this`frameOpen)
    {
      hide UpdateFits, UpdateSize, DrawUpdates;
      status := Next;
      if |pending| > 0 && updateSize + length + RECTANGLE_OVERHEAD >= limits.size {
        var wrote := Write(slice.fullWrote(left, top));
        if !wrote { return Failed; }
        if !slice.fullReady(left, top) {
          Yield(left, top);
          return Yielded;
        }
      }
    }

    /** A complete batch goes out at once. */
    method WriteBatch(left: nat, top: nat, slice: Slice) returns (status: Status)
      requires Valid() && left < width && top < height
      modifies this`wire, this`pending, this`updateSize, this`resumeLeft, this`resumeTop, this`frameOpen
      ensures Valid() && (Carried(), status) == Batched(limits, old(Carried()), slice, left, top)
      ensures !status.Failed? ==> |pending| < limits.batch
      ensures if old(|pending|) == limits.batch && !status.Failed? then
                pending == [] && wire == old(wire) + [old(pending)] && Shown() == old(DrawAll(Shown(), pending))
              else unchanged(this`pending, this`wire)
      ensures !status.Yielded? ==> unchanged(this`resumeLeft, this`resumeTop, this`frameOpen)
      ensures status.Yielded? ==>
                && frameOpen
                && if left + TILE < width then resumeLeft == left + TILE && resumeTop == top
                   else resumeLeft == 0 && resumeTop == top + TILE
    {
      status := Next;
      if |pending| == limits.batch {
        var wrote := Write(slice.batchWrote(left, top));
        if !wrote { return Failed; }
        if slice.blocked(left, top) {
          if left + TILE >= width { Yield(0, top + TILE); } else { Yield(left + TILE, top); }
          status := Yielded;
        }
      }
    }

    /** Where a call that started with `start` tiles to go may stop: strictly further on. */
    ghost predicate Progressed(start: nat)
      reads this
    {
      frameOpen && resumeLeft < width && RemainingTiles() < start
    }

    /** Inside a call, before the tile at (left, top). */
    ghost predicate Underway(job: Job, frame: array<byte>, left: nat, top: nat, start: nat)
      reads this, previous, frame
    {
      && Valid() && frame.Length == width * height * 4 && frame != previous && |pending| < limits.batch
      && SyncedTo(frame, left, top) && OnJob(job, frame, left, top) && (pending != [] ==> frameTiles > 0)
      && Remaining(width, height, left, top) <= start
          && (frameTiles > 0 ==> Remaining(width, height, left, top) < start)
    }

    /** Inside a call that yields. */
    ghost predicate Stopped(frame: array<byte>, slice: Slice, start: nat)
      reads this, previous, frame
    {
      Valid() && SyncedTo(frame, resumeLeft, resumeTop) && Progressed(start) && !Smooth(slice)
    }

    /** The body of the tile loop; an unchanged tile is not sent. */
    method SendTile(frame: array<byte>, left: nat, top: nat, slice: Slice, ghost job: Job, ghost start: nat)
      returns (status: Status)
      requires Underway(job, frame, left, top, start) && left < width && top < height
      modifies this, previous
      ensures (Carried(), status) == TileOf(job, old(Carried()), slice, left, top) && Valid() && old(wire) <= wire
      ensures status.Next? ==>
                && unchanged(this`resumeLeft, this`resumeTop, this`frameOpen, this`previousValid)
                && Underway(job, frame, left + TILE, top, start)
      ensures !Dirty(job, left, top) ==> unchanged(this`pending, this`wire, this`frameTiles, previous)
      ensures status.Yielded? ==> Stopped(frame, slice, start) && unchanged(this`previousValid)
    {
      hide Synced, DrawAll, Remaining, SameInTile, Smooth, Ahead, DrawUpdates;
      NextTileIsCloser(width, height, left, top);
      SameAhead(width, height, job.cache, previous[..], frame[..], left, top);
      if frameTiles >= 1 && slice.late(left, top) {
        LateIsNotSmooth(slice, left, top);
        Yield(left, top);
        return Yielded;
      }
      if previousValid {
        var changed := TileChanged(previous, frame, width, height, TileAt(width, height, left, top));
        if !changed {
          SkippedTileIsSynced(width, height, frame[..], previous[..], DrawAll(Shown(), pending), left, top);
          AheadSkips(width, height, job.cache, previous[..], left, top);
          return Next;
        }
      }
      status := SendChanged(frame, left, top, slice, job, start);
    }

    /** A changed tile. */
    method SendChanged(frame: array<byte>, left: nat, top: nat, slice: Slice, ghost job: Job, ghost start: nat)
      returns (status: Status)
      requires Underway(job, frame, left, top, start) && left < width && top < height
      modifies this, previous
      ensures (Carried(), status)
              == ChangedTile(limits, old(Carried()), TileLength(width, height, left, top), slice, left, top)
      ensures Valid() && old(wire) <= wire
      ensures status.Next? ==>
                && unchanged(this`resumeLeft, this`resumeTop, this`frameOpen, this`previousValid)
                && Underway(job, frame, left + TILE, top, start)
      ensures status.Yielded? ==> Stopped(frame, slice, start) && unchanged(this`previousValid)
    {
      hide Synced, DrawAll, Remaining, Ahead, DrawUpdates, UpdateFits, UpdateSize;
      NextTileIsCloser(width, height, left, top);
      var t := TileAt(width, height, left, top);
      ghost var shown := DrawAll(Shown(), pending);
      status := MakeRoom(left, top, t.columns * t.rows * 2, slice);
      if status.Failed? { return; }
      NothingPending(Shown());
      assert DrawAll(Shown(), pending) == shown;
      if status.Yielded? { return; }
      Encode(frame, left, top, job);
      shown := DrawAll(Shown(), pending);
      status := WriteBatch(left, top, slice);
      NothingPending(Shown());
      if status.Yielded? && left + TILE >= width {
        NextRowIsSame(width, height, left + TILE, top);
        RowDone(width, height, frame[..], previous[..], previousValid, shown, left + TILE, top);
      }
    }

    /** The tiles of one row, from `first` on. */
    method SendRow(frame: array<byte>, first: nat, top: nat, slice: Slice, ghost job: Job, ghost start: nat)
      returns (status: Status)
      requires Underway(job, frame, first, top, start) && top < height
      modifies this, previous
      ensures (Carried(), status) == RowOfTiles(job, old(Carried()), slice, first, top) && Valid() && old(wire) <= wire
      ensures status.Next? ==>
                && unchanged(this`resumeLeft, this`resumeTop, this`frameOpen, this`previousValid)
                && Underway(job, frame, 0, top + TILE, start)
      ensures status.Yielded? ==> Stopped(frame, slice, start) && unchanged(this`previousValid)
    {
      hide Synced, DrawAll, Remaining, Smooth, Ahead, DrawUpdates, TileOf, Dirty, UpdateFits, UpdateSize;
      ghost var whole := RowOfTiles(job, Carried(), slice, first, top);
      var left := first;
      status := Next;
      while left < width
        invariant status.Next? && unchanged(this`resumeLeft, this`resumeTop, this`frameOpen, this`previousValid)
        invariant Underway(job, frame, left, top, start) && RowOfTiles(job, Carried(), slice, left, top) == whole
        invariant old(wire) <= wire
        decreases width - left
      {
        status := SendTile(frame, left, top, slice, job, start);
        if status != Next { return; }
        left := left + TILE;
      }
      NextRowIsSame(width, height, left, top);
      RowDone(width, height, frame[..], previous[..], previousValid, DrawAll(Shown(), pending), left, top);
      AheadSkips(width, height, job.cache, previous[..], left, top);
    }

    /** All tiles from the resume point on. */
    method SendTiles(frame: array<byte>, slice: Slice) returns (status: Status, ghost end: nat)
      requires Between(frame) && frameTiles == 0 && frame.Length == width * height * 4 && frame != previous
      modifies this, previous
      ensures (Carried(), status) == old(AllTiles(JobOf(frame), NO_LOAD, slice, resumeLeft, resumeTop))
      ensures Valid() && old(wire) <= wire
      ensures status.Next? ==>
                && unchanged(this`resumeLeft, this`resumeTop, this`frameOpen, this`previousValid)
                && height <= end && SyncedTo(frame, 0, end)
      ensures status.Yielded? ==> Stopped(frame, slice, old(RemainingTiles())) && unchanged(this`previousValid)
    {
      hide Synced, DrawAll, Remaining, Smooth, Ahead, DrawUpdates, RowOfTiles, UpdateFits;
      ghost var start, job := RemainingTiles(), JobOf(frame);
      ghost var whole := AllTiles(job, NO_LOAD, slice, resumeLeft, resumeTop);
      AheadAtStart(width, height, previous[..], resumeLeft, resumeTop);
      hide UpdateSize;
      var top, left := resumeTop, resumeLeft;
      status, end := Next, 0;
      while top < height
        invariant status.Next? && unchanged(this`resumeLeft, this`resumeTop, this`frameOpen, this`previousValid)
        invariant left == (if top == resumeTop then resumeLeft else 0) && resumeTop <= top
        invariant Underway(job, frame, left, top, start) && AllTiles(job, Carried(), slice, left, top) == whole
        invariant old(wire) <= wire
        decreases height - top
      {
        status := SendRow(frame, left, top, slice, job, start);
        if status != Next { return; }
        top, left := top + TILE, 0;
      }
      PastTheEnd(width, height, frame[..], previous[..], previousValid, DrawAll(Shown(), pending), left, top);
      end := top;
    }

    /** Whether a call with this frame goes through: it has the right size, the client is not stopping, and every write
        the call comes to make succeeds. */
    ghost predicate Succeeds(frame: array<byte>, slice: Slice)
      reads this, previous, frame
    {
      && frame.Length == width * height * 4 && !slice.stopping
      && (slice.writable ==> Writes(JobOf(frame), slice, resumeLeft, resumeTop))
    }

    /** send_classic_bitmap_frame. When it closes the frame, the client shows exactly this frame; when
        the socket was writable and it does not, fewer tiles remain; and when the socket was not, only
        the frame is left open. */
    method SendFrame(frame: array<byte>, slice: Slice) returns (ok: bool)
      requires Between(frame) && frame != previous
      modifies this, previous
      ensures ok <==> old(Succeeds(frame, slice))
      ensures Valid() && old(wire) <= wire && (!slice.writable ==> wire == old(wire))
      ensures ok ==> Between(frame)
      ensures ok && !frameOpen ==> Shows(width, height, Shown(), frame[..]) && AtRest()
      ensures ok && !frameOpen ==> previousValid == (old(previousValid) || frameTiles > 0)
      ensures ok && slice.writable && frameOpen ==> RemainingTiles() < old(RemainingTiles()) && !Smooth(slice)
      ensures ok && !slice.writable ==>
                frameOpen && unchanged(this`resumeLeft, this`resumeTop, this`previousValid, previous)
    {
      hide Synced, DrawAll, Remaining, Shows, Smooth, DrawUpdates, AllTiles;
      if frame.Length != width * height * 4 || slice.stopping { return false; }
      if !slice.writable {
        frameOpen := true;
        return true;
      }
      frameTiles, updateSize := 0, START_SIZE;
      var status, end := SendTiles(frame, slice);
      if status.Failed? { return false; }
      ghost var shown := DrawAll(Shown(), pending);
      if |pending| > 0 {
        var wrote := Write(slice.lastWrote);
        if !wrote { return false; }
      }
      NothingPending(Shown());
      assert DrawAll(Shown(), pending) == shown;
      if status.Yielded? { return true; }
      CloseFrame(frame, end);
      ok := true;
    }

    /** Past the last tile. */
    method CloseFrame(frame: array<byte>, ghost end: nat)
      requires Valid() && pending == [] && height <= end && SyncedTo(frame, 0, end)
      modifies this`resumeLeft, this`resumeTop, this`frameOpen, this`previousValid
      ensures Shows(width, height, Shown(), frame[..]) && AtRest() && Between(frame)
      ensures previousValid == (old(previousValid) || frameTiles > 0)
    {
      hide Synced, DrawAll, Shows, DrawUpdates;
      NothingPending(Shown());
      FrameDone(width, height, frame[..], previous[..], previousValid, Shown(), 0, end);
      resumeLeft, resumeTop, frameOpen := 0, 0, false;
      if frameTiles > 0 { previousValid := true; }
      NewFrame(width, height, frame[..], previous[..], previousValid, Shown());
    }

    /** The client showed this frame when slice u was over: `ends` tells how much was on the wire after each slice. */
    ghost predicate ShownAfter(out: seq<seq<Rectangle>>, frame: array<byte>, ends: seq<nat>, u: nat)
      reads frame
    {
      u < |ends| && ends[u] <= |out| && Shows(width, height, DrawUpdates(screen, out[..ends[u]]), frame[..])
    }

    /** What was played: how much is on the wire after each slice, and the slices in which the frames closed. */
    ghost predicate Played(out: seq<seq<Rectangle>>, frames: seq<array<byte>>, slices: seq<Slice>, start: nat,
                           ends: seq<nat>, closes: seq<nat>)
      reads frames
    {
      && EndsOk(start, |out|, slices, ends) && InOrder(slices, closes) && |closes| == |frames|
      && forall i :: 0 <= i < |frames| ==> ShownAfter(out, frames[i], ends, closes[i])
    }

    /** Between two slices: the frame is on its way, or none is. */
    ghost predicate Waiting(frame: array<byte>)
      reads this, previous, frame
    {
      if frameOpen then Between(frame) else AtRest()
    }

    /** One slice of a frame, a new one if none is open. */
    method PlaySlice(frame: array<byte>, slice: Slice) returns (ok: bool)
      requires Waiting(frame) && frame != previous
      modifies this, previous
      ensures Valid() && old(wire) <= wire && (!slice.writable ==> wire == old(wire))
      ensures ok ==> Waiting(frame)
      ensures ok && frameOpen ==> RemainingTiles() + (if slice.writable then 1 else 0) <= old(RemainingTiles())
      ensures ok && !frameOpen ==> slice.writable && Shows(width, height, Shown(), frame[..])
      ensures !ok ==> frame.Length != width * height * 4 || slice.stopping || SomeWriteFails(slice)
    {
      hide Synced, Shows, Remaining, SomeWriteFails, DrawUpdates, AllTiles, UpdateFits, UpdateSize;
      if !frameOpen { NewFrame(width, height, frame[..], previous[..], previousValid, Shown()); }
      NothingPending(Shown());
      FailsOnWrite(JobOf(frame), slice, resumeLeft, resumeTop);
      ok := SendFrame(frame, slice);
    }

    /** The output thread: a frame is sent slice by slice until it closes, then the next one is taken. Updates are only
        ever added to the wire, and none in a slice that is not writable. Frame i closes in slice closes[i], and then
        the client shows it. Writable slices are never wasted: with N tiles to a frame, frame k has closed before the
        (k + 1) * (N + 1)th of them. */
    method Play(frames: seq<array<byte>>, slices: seq<Slice>)
      returns (ghost ends: seq<nat>, ghost closes: seq<nat>, closed: nat, used: nat, failed: bool)
      requires AtRest() && forall i :: 0 <= i < |frames| ==> frames[i] != previous
      modifies this, previous
      ensures Valid() && old(wire) <= wire && closed <= |frames| && used <= |slices|
      ensures Played(wire, frames[..closed], slices[..used], |old(wire)|, ends, closes)
      ensures !failed ==>
                && (closed == |frames| || used == |slices|)
                && Writable(slices[..used]) < Allowance(closed, Remaining(width, height, 0, 0))
      ensures failed ==>
                && used > 0 && closed < |frames|
                && (|| frames[closed].Length != width * height * 4 || slices[used - 1].stopping
                    || SomeWriteFails(slices[used - 1]))
    {
      hide Synced, Shows, Remaining, SomeWriteFails, Allowance, DrawUpdates, Played, UpdateFits, UpdateSize;
      ghost var n := Remaining(width, height, 0, 0);
      ends, closes, closed, used, failed := [], [], 0, 0, false;
      MoreAllowance(0, n);
      NothingPlayed(wire, frames, slices);
      while used < |slices| && closed < |frames|
        invariant closed <= |frames| && used <= |slices| && Valid() && old(wire) <= wire
        invariant Played(wire, frames[..closed], slices[..used], |old(wire)|, ends, closes)
        invariant if closed < |frames| then Waiting(frames[closed]) else !frameOpen
        invariant frameOpen || AtRest()
        invariant Writable(slices[..used]) + RemainingTiles() < Allowance(closed, n)
      {
        assert slices[..used + 1] == slices[..used] + [slices[used]];
        WritableMore(slices[..used], slices[used]);
        ghost var before := wire;
        var ok := PlaySlice(frames[closed], slices[used]);
        SlicePlayed(before, wire, frames[..closed], slices[..used], slices[used], |old(wire)|, ends, closes);
        if ok && !frameOpen {
          FramePlayed(before, wire, frames[..closed], frames[closed], slices[..used], slices[used], |old(wire)|, ends,
                      closes);
        }
        ends, used := ends + [|wire|], used + 1;
        if !ok { return ends, closes, closed, used, true; }
        if !frameOpen {
          MoreAllowance(closed, n);
          assert frames[..closed + 1] == frames[..closed] + [frames[closed]];
          closes := closes + [used - 1];
          closed := closed + 1;
        }
      }
    }

    lemma NothingPlayed(out: seq<seq<Rectangle>>, frames: seq<array<byte>>, slices: seq<Slice>)
      ensures Played(out, frames[..0], slices[..0], |out|, [], [])
    {
    }

    /** What was shown stays so when more is written. */
    lemma SlicePlayed(before: seq<seq<Rectangle>>, after: seq<seq<Rectangle>>, frames: seq<array<byte>>,
                      slices: seq<Slice>, slice: Slice, start: nat, ends: seq<nat>, closes: seq<nat>)
      requires Played(before, frames, slices, start, ends, closes) && before <= after
      requires !slice.writable ==> before == after
      ensures Played(after, frames, slices + [slice], start, ends + [|after|], closes)
    {
      hide Shows, DrawUpdates, EndsOk, InOrder;
      OneMorePlayed(start, |before|, |after|, slices, slice, ends, closes);
      forall i | 0 <= i < |frames| ensures ShownAfter(after, frames[i], ends + [|after|], closes[i]) {
        assert ShownAfter(before, frames[i], ends, closes[i]);
        assert after[..ends[closes[i]]] == before[..ends[closes[i]]];
      }
    }

    /** A frame that closes in this slice. */
    lemma FramePlayed(before: seq<seq<Rectangle>>, after: seq<seq<Rectangle>>, frames: seq<array<byte>>,
                      frame: array<byte>, slices: seq<Slice>, slice: Slice, start: nat, ends: seq<nat>,
                      closes: seq<nat>)
      requires Played(before, frames, slices, start, ends, closes) && before <= after && slice.writable
      requires Shows(width, height, DrawUpdates(screen, after), frame[..])
      ensures Played(after, frames + [frame], slices + [slice], start, ends + [|after|], closes + [|slices|])
    {
      hide Shows, DrawUpdates, InOrder;
      OneMorePlayed(start, |before|, |after|, slices, slice, ends, closes);
      SlicePlayed(before, after, frames, slices, slice, start, ends, closes);
      var all, last, later := frames + [frame], closes + [|slices|], ends + [|after|];
      forall i | 0 <= i < |all| ensures ShownAfter(after, all[i], later, last[i]) {
        if i < |frames| {
          assert ShownAfter(after, frames[i], later, closes[i]);
        } else {
          assert after[..|after|] == after;
        }
      }
    }
  }

  /** How much was on the wire after each slice: it only grows, and not in a slice that is not writable. */
  ghost predicate EndsOk(start: nat, end: nat, slices: seq<Slice>, ends: seq<nat>) {
    && |ends| == |slices| && end == Reached(start, ends)
    && forall u :: 0 <= u < |ends| ==> EndOk(start, slices[u], ends, u)
  }

  function Reached(start: nat, ends: seq<nat>): nat { if ends == [] then start else ends[|ends| - 1] }

  predicate EndOk(start: nat, slice: Slice, ends: seq<nat>, u: nat)
    requires u < |ends|
  {
    var before := if u == 0 then start else ends[u - 1];
    if slice.writable then before <= ends[u] else before == ends[u]
  }

  /** Frames close one after the other, each in a writable slice of its own. */
  ghost predicate InOrder(slices: seq<Slice>, closes: seq<nat>) {
    forall i :: 0 <= i < |closes| ==> InOrderAt(slices, closes, i)
  }

  predicate InOrderAt(slices: seq<Slice>, closes: seq<nat>, i: nat)
    requires i < |closes|
  {
    closes[i] < |slices| && slices[closes[i]].writable && (i > 0 ==> closes[i - 1] < closes[i])
  }

  lemma OneMorePlayed(start: nat, before: nat, after: nat, slices: seq<Slice>, slice: Slice, ends: seq<nat>,
                      closes: seq<nat>)
    requires EndsOk(start, before, slices, ends) && InOrder(slices, closes)
    requires if slice.writable then before <= after else before == after
    ensures EndsOk(start, after, slices + [slice], ends + [after])
    ensures InOrder(slices + [slice], closes)
    ensures slice.writable ==> InOrder(slices + [slice], closes + [|slices|])
  {
    var more, later, last := slices + [slice], ends + [after], closes + [|slices|];
    forall u | 0 <= u < |later| ensures EndOk(start, more[u], later, u) {
      if u < |ends| { assert EndOk(start, slices[u], ends, u); }
    }
    forall i | 0 <= i < |closes| ensures InOrderAt(more, closes, i) { assert InOrderAt(slices, closes, i); }
    if slice.writable {
      forall i | 0 <= i < |last| ensures InOrderAt(more, last, i) {
        if i < |closes| { assert InOrderAt(slices, closes, i); }
        if i == |closes| > 0 { assert InOrderAt(slices, closes, i - 1); }
      }
    }
  }

  lemma WritableMore(slices: seq<Slice>, slice: Slice)
    ensures Writable(slices + [slice]) == Writable(slices) + if slice.writable then 1 else 0
  {
    assert (slices + [slice])[..|slices|] == slices;
  }

  lemma FailsOnWrite(job: Job, slice: Slice, left: nat, top: nat)
    ensures !Writes(job, slice, left, top) ==> SomeWriteFails(slice)
  {
    hide AllTiles;
    if AllTiles(job, NO_LOAD, slice, left, top).1 == Failed { FailureIsWrite(job, NO_LOAD, slice, left, top); }
  }

  /** More writable slices than any run needs to close more than k frames of n tiles. */
  function Allowance(k: nat, n: nat): nat { (k + 1) * (n + 1) }

  lemma MoreAllowance(k: nat, n: nat)
    ensures Allowance(0, n) == n + 1 && Allowance(k + 1, n) == Allowance(k, n) + n + 1
  {
    assert (k + 2) * (n + 1) == (k + 1) * (n + 1) + (n + 1);
  }

  function Writable(slices: seq<Slice>): nat {
    if slices == [] then 0
    else Writable(slices[..|slices| - 1]) + if slices[|slices| - 1].writable then 1 else 0
  }

  lemma NothingPending(canvas: Canvas)
    ensures DrawAll(canvas, []) == canvas
  {
  }

  lemma PastTheEnd(w: nat, h: nat, frame: seq<byte>, cache: seq<byte>, valid: bool, shown: Canvas, left: nat, top: nat)
    requires h <= top && Synced(w, h, frame, cache, valid, shown, left, top)
    ensures Synced(w, h, frame, cache, valid, shown, 0, top)
  {
    hide ColorAt, SameRgb;
    forall x: nat, y: nat | Inside(w, h, x, y) ensures SyncedAt(w, frame, cache, valid, shown, 0, top, x, y) {
      assert SyncedAt(w, frame, cache, valid, shown, left, top, x, y);
    }
  }
}
