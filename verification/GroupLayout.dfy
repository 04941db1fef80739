/** How an image is cut into groups (experimental/fast_lossless/fast_lossless.cc:1230-1233, 1286-1310) and where
their sections are in the table of contents (lib/jxl/toc.h:32-44).
 */
module GroupLayout {
  import opened Bits
  import opened Prediction
  import opened PlaneCoding
  import opened ImagePixels
  import opened Sequences

  const GROUP_DIM: nat := 256
  const DC_GROUP_DIM: nat := 2048

  function Tiles(size: nat): nat {
    (size + GROUP_DIM - 1) / GROUP_DIM
  }

  function DcTiles(size: nat): nat {
    (size + DC_GROUP_DIM - 1) / DC_GROUP_DIM
  }

  function NumGroups(width: nat, height: nat): nat {
    Tiles(width) * Tiles(height)
  }

  predicate IsSingle(width: nat, height: nat) {
    Tiles(width) == 1 && Tiles(height) == 1
  }

  /** The global section, the DC groups, the global AC section and the groups; a single group is one section. */
  function NumSections(width: nat, height: nat): (n: nat)
    ensures n > 0
  {
    if IsSingle(width, height) then 1 else 2 + DcTiles(width) * DcTiles(height) + NumGroups(width, height)
  }

  function SectionOf(width: nat, height: nat, g: nat): (k: nat)
    requires g < NumGroups(width, height)
    ensures k < NumSections(width, height)
  {
    if IsSingle(width, height) then 0 else 2 + DcTiles(width) * DcTiles(height) + g
  }

  // ----- the numbers in terms of the sides -----

  /** A tile, and a tile of DC groups, for every multiple of its side inside the image; a DC group covers eight
      by eight groups. */
  lemma TilesCount(size: nat)
    ensures forall k: nat :: k < Tiles(size) <==> 256 * k < size
    ensures forall k: nat :: k < DcTiles(size) <==> 2048 * k < size
    ensures DcTiles(size) == (Tiles(size) + 7) / 8
  {
    assert size <= 256 * Tiles(size) < size + 256 && size <= 2048 * DcTiles(size) < size + 2048;
  }

  /** The least number of squares of this side that cover a length. */
  ghost predicate IsCover(n: nat, size: nat, side: nat) {
    size <= n * side && (n == 0 || (n - 1) * side < size)
  }

  ghost predicate AreCovers(width: nat, height: nat, gx: nat, gy: nat, dx: nat, dy: nat) {
    IsCover(gx, width, 256) && IsCover(gy, height, 256) && IsCover(dx, width, 2048) && IsCover(dy, height, 2048)
  }

  lemma CountSections(width: nat, height: nat)
    ensures forall gx: nat, gy: nat, dx: nat, dy: nat | AreCovers(width, height, gx, gy, dx, dy) ::
              NumSections(width, height) == if gx == 1 && gy == 1 then 1 else 2 + dx * dy + gx * gy
  {
    hide AreCovers, NumSections;
    forall gx: nat, gy: nat, dx: nat, dy: nat | AreCovers(width, height, gx, gy, dx, dy)
      ensures NumSections(width, height) == if gx == 1 && gy == 1 then 1 else 2 + dx * dy + gx * gy
    {
      SectionsOfSides(width, height, gx, gy, dx, dy);
    }
  }

  /** How many sections there are, and which one holds a pixel, from the sides of the image alone: `gx` by `gy`
      squares of 256 pixels and `dx` by `dy` squares of 2048 pixels cover it. */
  lemma SectionsOfSides(width: nat, height: nat, gx: nat, gy: nat, dx: nat, dy: nat)
    requires AreCovers(width, height, gx, gy, dx, dy)
    ensures NumGroups(width, height) == gx * gy
    ensures NumSections(width, height) == if gx == 1 && gy == 1 then 1 else 2 + dx * dy + gx * gy
    ensures forall x: nat, y: nat | x < width && y < height ::
              SectionOf(width, height, GroupOf(width, height, TileAt(width, height, x, y))) ==
              if gx == 1 && gy == 1 then 0 else 2 + dx * dy + y / 256 * gx + x / 256
  {
    assert Tiles(width) == gx && Tiles(height) == gy && DcTiles(width) == dx && DcTiles(height) == dy;
  }

  /** The extent of tile `k`: the last one may be smaller. */
  function Extent(size: nat, k: nat): (e: nat)
    requires k < Tiles(size)
    ensures 0 < e <= GROUP_DIM && GROUP_DIM * k + e <= size
    ensures e == GROUP_DIM || GROUP_DIM * k + e == size
  {
    Min(size - GROUP_DIM * k, GROUP_DIM)
  }

  /** The frame has the padded width; its tiles are those of the image, padded one by one. */
  lemma PaddedTiles(width: nat, k: nat)
    ensures Tiles(RoundedUp(width)) == Tiles(width) && DcTiles(RoundedUp(width)) == DcTiles(width)
    ensures k < Tiles(width) ==> Extent(RoundedUp(width), k) == RoundedUp(Extent(width, k))
  {
    var chunks := (width + 15) / 16;
    assert RoundedUp(width) == 16 * chunks && width <= 16 * chunks < width + 16;
    assert Tiles(width) == (chunks + 15) / 16 && DcTiles(width) == (chunks + 127) / 128;
    if k < Tiles(width) && width < GROUP_DIM * k + GROUP_DIM {
      assert (width - GROUP_DIM * k + 15) / 16 == chunks - 16 * k;
    }
  }

  // ----- the tile of a group and the group of a pixel -----

  datatype Tile = Tile(x: nat, y: nat) {
    predicate IsIn(width: nat, height: nat) {
      x < Tiles(width) && y < Tiles(height)
    }
  }

  function TileOf(width: nat, height: nat, g: nat): (t: Tile)
    requires g < NumGroups(width, height)
    ensures t.IsIn(width, height)
  {
    TileInside(Tiles(width), Tiles(height), g);
    Tile(g % Tiles(width), g / Tiles(width))
  }

  lemma TileInside(tx: nat, ty: nat, g: nat)
    requires g < tx * ty
    ensures tx > 0 && 0 <= g % tx < tx && 0 <= g / tx < ty
  {
    assert tx > 0;
    DivMod(g, tx);
    IndexInRange(g, tx, ty);
  }

  function GroupOf(width: nat, height: nat, t: Tile): (g: nat)
    requires t.IsIn(width, height)
    ensures g < NumGroups(width, height)
  {
    RowMajor(Tiles(width), Tiles(height), t.x, t.y);
    t.y * Tiles(width) + t.x
  }

  lemma RowMajor(tx: nat, ty: nat, x: nat, y: nat)
    requires x < tx && y < ty
    ensures y * tx + x < tx * ty && (y * tx + x) / tx == y && (y * tx + x) % tx == x
  {
    MulMonotone(y + 1, ty, tx);
    assert (y + 1) * tx == y * tx + tx;
    DivModUnique(y * tx + x, tx, y, x);
  }

  lemma TileOfGroup(width: nat, height: nat, t: Tile)
    requires t.IsIn(width, height)
    ensures TileOf(width, height, GroupOf(width, height, t)) == t
  {
    RowMajor(Tiles(width), Tiles(height), t.x, t.y);
  }

  lemma GroupOfTile(width: nat, height: nat, g: nat)
    requires g < NumGroups(width, height)
    ensures GroupOf(width, height, TileOf(width, height, g)) == g
  {
    TileInside(Tiles(width), Tiles(height), g);
    DivMod(g, Tiles(width));
  }

  /** A pixel lies in one tile, at one place. */
  function TileAt(width: nat, height: nat, x: nat, y: nat): (t: Tile)
    requires x < width && y < height
    ensures t.IsIn(width, height) && GROUP_DIM * t.x + x % GROUP_DIM == x && GROUP_DIM * t.y + y % GROUP_DIM == y
    ensures x % GROUP_DIM < Extent(width, t.x) && y % GROUP_DIM < Extent(height, t.y)
  {
    Tile(x / GROUP_DIM, y / GROUP_DIM)
  }

  lemma TileAtPlace(width: nat, height: nat, t: Tile, x: nat, y: nat)
    requires t.IsIn(width, height) && x < Extent(width, t.x) && y < Extent(height, t.y)
    ensures TileAt(width, height, GROUP_DIM * t.x + x, GROUP_DIM * t.y + y) == t
    ensures (GROUP_DIM * t.x + x) % GROUP_DIM == x && (GROUP_DIM * t.y + y) % GROUP_DIM == y
  {
    DivModUnique(GROUP_DIM * t.x + x, GROUP_DIM, t.x, x);
    DivModUnique(GROUP_DIM * t.y + y, GROUP_DIM, t.y, y);
  }

  // ----- the pixels of a group -----

  ghost predicate IsRectangle(image: Image, width: nat) {
    forall y | 0 <= y < |image| :: |image[y]| == width
  }

  /** The pixels of a tile. */
  function Part(image: Image, width: nat, t: Tile): (part: Image)
    requires IsRectangle(image, width) && t.IsIn(width, |image|)
    ensures |part| == Extent(|image|, t.y) && IsRectangle(part, Extent(width, t.x))
    ensures forall y, x | 0 <= y < |part| && 0 <= x < Extent(width, t.x) ::
              part[y][x] == image[GROUP_DIM * t.y + y][GROUP_DIM * t.x + x]
  {
    var x0, xs, y0 := GROUP_DIM * t.x, Extent(width, t.x), GROUP_DIM * t.y;
    seq(Extent(|image|, t.y), y requires 0 <= y < Extent(|image|, t.y) => image[y0 + y][x0..x0 + xs])
  }

  lemma ImageIsRectangle(image: Image, n: nat, width: nat, limit: int)
    requires IsImage(image, n, width, limit)
    ensures IsRectangle(image, width) && 0 < n <= 4
  {
  }

  lemma PartIsImage(image: Image, n: nat, width: nat, limit: int, t: Tile)
    requires IsImage(image, n, width, limit) && IsRectangle(image, width) && t.IsIn(width, |image|)
    ensures IsImage(Part(image, width, t), n, Extent(width, t.x), limit)
  {
    var part := Part(image, width, t);
    forall y, x | 0 <= y < |part| && 0 <= x < Extent(width, t.x) ensures IsSamples(part[y][x], n, limit) {
      assert IsSamples(image[GROUP_DIM * t.y + y][GROUP_DIM * t.x + x], n, limit);
    }
  }

  lemma SinglePart(image: Image, width: nat)
    requires IsRectangle(image, width) && IsSingle(width, |image|)
    ensures Tile(0, 0).IsIn(width, |image|) && Part(image, width, Tile(0, 0)) == image
    ensures Extent(width, 0) == width && NumGroups(width, |image|) == 1 && TileOf(width, |image|, 0) == Tile(0, 0)
  {
    var part := Part(image, width, Tile(0, 0));
    forall y | 0 <= y < |image| ensures part[y] == image[y] {
      assert forall x | 0 <= x < width :: part[y][x] == image[y][x];
    }
  }

  // ----- the pixels of a frame -----

  /** A decoded position gives this pixel, except for a colour under alpha 0. */
  ghost predicate PixelIs(planes: seq<seq<Row>>, n: nat, x: nat, y: nat, p: Samples) {
    0 < n <= 4 && |planes| == n && (forall c | 0 <= c < n :: y < |planes[c]| && x < |planes[c][y]|) &&
    FromChannels(Column(planes, n, y, x)) == Kept(p)
  }

  /** Every pixel of the image comes back, from the planes of its group. */
  ghost predicate FrameRecovers(planes: seq<seq<seq<Row>>>, image: Image, n: nat, width: nat)
    requires IsRectangle(image, width) && |planes| == NumGroups(width, |image|)
  {
    forall x, y | 0 <= y < |image| && 0 <= x < width ::
      PixelIs(planes[GroupOf(width, |image|, TileAt(width, |image|, x, y))], n, x % GROUP_DIM, y % GROUP_DIM,
              image[y][x])
  }

  ghost predicate GroupRecovers(planes: seq<seq<Row>>, image: Image, n: nat, width: nat, t: Tile)
    requires IsRectangle(image, width) && t.IsIn(width, |image|)
  {
    Recovers(planes, Part(image, width, t), n, Extent(width, t.x))
  }

  lemma RecoversPixels(planes: seq<seq<Row>>, image: Image, n: nat, oxs: nat)
    requires 0 < n <= 4 && HaveSize(planes, n, oxs, |image|) && IsRectangle(image, oxs)
    ensures Recovers(planes, image, n, oxs) <==>
            forall x, y | 0 <= y < |image| && 0 <= x < oxs :: PixelIs(planes, n, x, y, image[y][x])
  {
    hide FromChannels, Kept;
    var out, kept := Pixels(planes, n, oxs, |image|), KeptImage(image);
    if forall x, y | 0 <= y < |image| && 0 <= x < oxs :: PixelIs(planes, n, x, y, image[y][x]) {
      forall y | 0 <= y < |image| ensures out[y] == kept[y] {
        forall x | 0 <= x < oxs ensures out[y][x] == kept[y][x] {
          assert PixelIs(planes, n, x, y, image[y][x]);
        }
      }
    }
    if Recovers(planes, image, n, oxs) {
      forall x, y | 0 <= y < |image| && 0 <= x < oxs ensures PixelIs(planes, n, x, y, image[y][x]) {
        assert out[y][x] == kept[y][x];
      }
    }
  }

  /** The planes of a tile have its size. */
  ghost predicate HaveTileSize(planes: seq<seq<Row>>, n: nat, width: nat, height: nat, t: Tile)
    requires t.IsIn(width, height)
  {
    HaveSize(planes, n, Extent(width, t.x), Extent(height, t.y))
  }

  lemma PixelOfTile(planes: seq<seq<Row>>, image: Image, n: nat, width: nat, t: Tile, x: nat, y: nat)
    requires 0 < n <= 4 && IsRectangle(image, width) && x < width && y < |image| && t == TileAt(width, |image|, x, y)
    requires HaveTileSize(planes, n, width, |image|, t) && GroupRecovers(planes, image, n, width, t)
    ensures PixelIs(planes, n, x % GROUP_DIM, y % GROUP_DIM, image[y][x])
  {
    hide PixelIs, Recovers, HaveSize;
    var part := Part(image, width, t);
    RecoversPixels(planes, part, n, Extent(width, t.x));
    assert part[y % GROUP_DIM][x % GROUP_DIM] == image[y][x];
  }

  lemma TileOfPixels(planes: seq<seq<Row>>, image: Image, n: nat, width: nat, t: Tile)
    requires 0 < n <= 4 && IsRectangle(image, width) && t.IsIn(width, |image|)
    requires HaveTileSize(planes, n, width, |image|, t)
    requires forall x, y | 0 <= y < |image| && 0 <= x < width && TileAt(width, |image|, x, y) == t ::
               PixelIs(planes, n, x % GROUP_DIM, y % GROUP_DIM, image[y][x])
    ensures GroupRecovers(planes, image, n, width, t)
  {
    hide PixelIs, Recovers, HaveSize, TileAt;
    var part := Part(image, width, t);
    forall x, y | 0 <= y < |part| && 0 <= x < Extent(width, t.x) ensures PixelIs(planes, n, x, y, part[y][x]) {
      TileAtPlace(width, |image|, t, x, y);
      var x', y' := GROUP_DIM * t.x + x, GROUP_DIM * t.y + y;
      assert TileAt(width, |image|, x', y') == t && PixelIs(planes, n, x' % GROUP_DIM, y' % GROUP_DIM, image[y'][x']);
    }
    RecoversPixels(planes, part, n, Extent(width, t.x));
  }

  /** Every pixel of the image comes back if and only if every group does. */
  lemma FrameIff(planes: seq<seq<seq<Row>>>, image: Image, n: nat, width: nat)
    requires 0 < n <= 4 && IsRectangle(image, width) && |planes| == NumGroups(width, |image|)
    requires forall g | 0 <= g < |planes| ::
               HaveTileSize(planes[g], n, width, |image|, TileOf(width, |image|, g))
    ensures FrameRecovers(planes, image, n, width) <==>
            forall g | 0 <= g < |planes| :: GroupRecovers(planes[g], image, n, width, TileOf(width, |image|, g))
  {
    hide PixelIs, GroupRecovers, HaveTileSize, TileAt, TileOf, GroupOf, NumGroups, Tiles;
    var height := |image|;
    if forall g | 0 <= g < |planes| :: GroupRecovers(planes[g], image, n, width, TileOf(width, height, g)) {
      forall x, y | 0 <= y < height && 0 <= x < width
        ensures PixelIs(planes[GroupOf(width, height, TileAt(width, height, x, y))], n, x % GROUP_DIM, y % GROUP_DIM,
                        image[y][x])
      {
        var t := TileAt(width, height, x, y);
        TileOfGroup(width, height, t);
        PixelOfTile(planes[GroupOf(width, height, t)], image, n, width, t, x, y);
      }
    }
    if FrameRecovers(planes, image, n, width) {
      forall g: nat | g < |planes| ensures GroupRecovers(planes[g], image, n, width, TileOf(width, height, g)) {
        GroupOfTile(width, height, g);
        TileOfPixels(planes[g], image, n, width, TileOf(width, height, g));
      }
    }
  }
}
