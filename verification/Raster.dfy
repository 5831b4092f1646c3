/**
 An RGBA raster as the flat bytes the source keeps: `pixel_offset` and what it takes to see
 the bytes as a grid, that is, that distinct pixels never share a byte and every byte is a pixel's.
 */
module Raster {
  import opened Bytes
  import opened AlphaBlending

  /** The number of pixels in the first y rows of width w. */
  function RowStart(y: nat, w: nat): nat {
    if y == 0 then 0 else RowStart(y - 1, w) + w
  }

  function PixelOffset(x: nat, y: nat, w: nat): nat {
    (RowStart(y, w) + x) * 4
  }

  /** The offset as the source writes it. */
  lemma {:induction false} PixelOffsetIsProduct(x: nat, y: nat, w: nat)
    ensures PixelOffset(x, y, w) == ((y * w) + x) * 4
    ensures RowStart(y, w) == y * w
  {
    if y > 0 {
      PixelOffsetIsProduct(x, y - 1, w);
      assert y * w == (y - 1) * w + w;
    }
  }

  lemma {:induction false} RowsInOrder(y: nat, z: nat, w: nat)
    requires y < z
    ensures RowStart(y, w) + w <= RowStart(z, w)
  {
    if y < z - 1 {
      RowsInOrder(y, z - 1, w);
    }
  }

  /** A pixel of the grid is inside the buffer. */
  lemma InBuffer(x: nat, y: nat, w: nat, h: nat)
    requires x < w && y < h
    ensures PixelOffset(x, y, w) + 4 <= 4 * RowStart(h, w)
  {
    RowsInOrder(y, h, w);
  }

  /** Distinct pixels of the grid are at least four bytes apart. */
  lemma Apart(x: nat, y: nat, u: nat, v: nat, w: nat)
    requires x < w && u < w && (x != u || y != v)
    ensures PixelOffset(x, y, w) + 4 <= PixelOffset(u, v, w) || PixelOffset(u, v, w) + 4 <= PixelOffset(x, y, w)
  {
    if y < v {
      RowsInOrder(y, v, w);
    } else if v < y {
      RowsInOrder(v, y, w);
    }
  }

  function Row(p: nat, w: nat): nat
    requires w > 0
  {
    if p < w then 0 else 1 + Row(p - w, w)
  }

  function Column(p: nat, w: nat): (r: nat)
    requires w > 0
    ensures r < w
  {
    if p < w then p else Column(p - w, w)
  }

  /** Every pixel number is that of exactly one column and row. */
  lemma {:induction false} Locate(p: nat, w: nat)
    requires w > 0
    ensures RowStart(Row(p, w), w) + Column(p, w) == p
  {
    if p >= w {
      Locate(p - w, w);
    }
  }

  lemma {:induction false} LocateOffset(x: nat, y: nat, w: nat)
    requires x < w
    ensures Row(RowStart(y, w) + x, w) == y && Column(RowStart(y, w) + x, w) == x
  {
    if y > 0 {
      LocateOffset(x, y - 1, w);
    }
  }

  /** The row of a pixel of the buffer is a row of the grid. */
  lemma RowInGrid(p: nat, w: nat, h: nat)
    requires w > 0 && p < RowStart(h, w)
    ensures Row(p, w) < h
  {
    Locate(p, w);
    if Row(p, w) >= h {
      if Row(p, w) > h {
        RowsInOrder(h, Row(p, w), w);
      }
    }
  }

  /** The pixel at (x, y); outside the buffer, none. */
  function PixelAt(s: seq<Byte>, x: nat, y: nat, w: nat): Pixel {
    var o := PixelOffset(x, y, w);
    if o + 4 <= |s| then Pixel(s[o], s[o + 1], s[o + 2], s[o + 3]) else TRANSPARENT
  }

  function PixelBytes(p: Pixel): (r: seq<Byte>)
    ensures |r| == 4
  {
    [p.red, p.green, p.blue, p.alpha]
  }

  /** A raster of h rows of w pixels. */
  predicate IsRaster(s: seq<Byte>, w: nat, h: nat) {
    w > 0 && |s| == 4 * RowStart(h, w)
  }

  ghost predicate SameGrid(a: seq<Byte>, b: seq<Byte>, w: nat, h: nat) {
    forall x: nat, y: nat | x < w && y < h :: PixelAt(a, x, y, w) == PixelAt(b, x, y, w)
  }

  /** Rasters with the same pixels are the same bytes. */
  lemma GridDetermines(a: seq<Byte>, b: seq<Byte>, w: nat, h: nat)
    requires IsRaster(a, w, h) && IsRaster(b, w, h) && SameGrid(a, b, w, h)
    ensures a == b
  {
    forall i | 0 <= i < |a|
      ensures a[i] == b[i]
    {
      var p := i / 4;
      Locate(p, w);
      RowInGrid(p, w, h);
      var x, y := Column(p, w), Row(p, w);
      InBuffer(x, y, w, h);
      assert PixelAt(a, x, y, w) == PixelAt(b, x, y, w);
      assert PixelOffset(x, y, w) == 4 * p;
    }
  }

  /** The bytes after `patch` has been written at the start of a run of pixels of row y. */
  function Patched(s: seq<Byte>, x: nat, y: nat, w: nat, patch: seq<Byte>): seq<Byte>
    requires PixelOffset(x, y, w) + |patch| <= |s|
  {
    s[..PixelOffset(x, y, w)] + patch + s[PixelOffset(x, y, w) + |patch|..]
  }

  /** Writing a run of pixels changes those pixels and no other. */
  lemma PatchedRun(s: seq<Byte>, x: nat, y: nat, w: nat, h: nat, patch: seq<Byte>, n: nat, u: nat, v: nat)
    requires IsRaster(s, w, h) && |patch| == 4 * n && x + n <= w && y < h
    requires u < w && v < h
    ensures PixelOffset(x, y, w) + |patch| <= |s|
    ensures PixelAt(Patched(s, x, y, w, patch), u, v, w) ==
            if v == y && x <= u < x + n then PixelAt(patch, u - x, 0, n) else PixelAt(s, u, v, w)
  {
    RowsInOrder(y, h, w);
    InBuffer(u, v, w, h);
    if v < y {
      RowsInOrder(v, y, w);
    } else if y < v {
      RowsInOrder(y, v, w);
    }
  }
}
