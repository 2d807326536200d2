/** Textures, sub-rectangles and the RGBA8 bytes that a pixel read returns.
    A texture stores its pixels row by row in GL order (row 0 is the bottom
    row), four bytes per pixel (RGBA, one unsigned byte per channel). */
module Texels {

  /** One unsigned byte, the element type of a `Uint8Array`. */
  newtype byte = x: int | 0 <= x < 256

  /** A zero-filled byte sequence, as `new Uint8Array(n)` creates. */
  function Zeros(n: nat): (z: seq<byte>)
    ensures |z| == n
    ensures forall k :: 0 <= k < n ==> z[k] == 0
  {
    if n == 0 then [] else Zeros(n - 1) + [0]
  }

  /** A drawable texture: its size and its RGBA8 contents. */
  datatype Texture = Texture(width: nat, height: nat, texels: seq<byte>)
  {
    predicate Valid() {
      |texels| == width * height * 4
    }
  }

  /** A sub-rectangle (x, y, width, height), in pixels. */
  datatype Rect = Rect(x: nat, y: nat, width: nat, height: nat)

  /** The rectangle lies inside a texture of the given size. */
  predicate Within(r: Rect, texWidth: nat, texHeight: nat) {
    r.x + r.width <= texWidth && r.y + r.height <= texHeight
  }

  /** Distance between two integers. */
  function Dist(a: int, b: int): nat {
    if a < b then b - a else a - b
  }

  function Max(a: int, b: int): int {
    if a < b then b else a
  }

  function Min(a: int, b: int): int {
    if a < b then a else b
  }

  /** Clamps v into [0, hi] as `Math.max(0, Math.min(v, hi))` does. The
      result is the allowed value nearest to v. */
  function ClampInto(v: int, hi: nat): (c: nat)
    ensures c <= hi
    ensures forall u :: 0 <= u <= hi ==> Dist(c, v) <= Dist(u, v)
  {
    Max(0, Min(v, hi))
  }

  /** The clamping done by both read methods: width and height are first
      clamped into [0, texture size], then x and y into the positions that
      keep the clamped rectangle inside the texture. Nothing is rejected. */
  function Clamp(texWidth: nat, texHeight: nat, x: int, y: int, width: int, height: int): (r: Rect)
    ensures Within(r, texWidth, texHeight)
    ensures forall w :: 0 <= w <= texWidth ==> Dist(r.width, width) <= Dist(w, width)
    ensures forall h :: 0 <= h <= texHeight ==> Dist(r.height, height) <= Dist(h, height)
    ensures forall u :: 0 <= u <= texWidth - r.width ==> Dist(r.x, x) <= Dist(u, x)
    ensures forall v :: 0 <= v <= texHeight - r.height ==> Dist(r.y, y) <= Dist(v, y)
  {
    var w := ClampInto(width, texWidth);
    var h := ClampInto(height, texHeight);
    Rect(ClampInto(x, texWidth - w), ClampInto(y, texHeight - h), w, h)
  }

  /** A request that already lies inside the texture is returned unchanged,
      and clamping twice is the same as clamping once. */
  lemma ClampKeepsValidRequest(texWidth: nat, texHeight: nat, r: Rect)
    requires Within(r, texWidth, texHeight)
    ensures Clamp(texWidth, texHeight, r.x, r.y, r.width, r.height) == r
  {
    var c := Clamp(texWidth, texHeight, r.x, r.y, r.width, r.height);
    assert Dist(c.width, r.width) <= Dist(r.width, r.width);
    assert Dist(c.height, r.height) <= Dist(r.height, r.height);
    assert Dist(c.x, r.x) <= Dist(r.x, r.x);
    assert Dist(c.y, r.y) <= Dist(r.y, r.y);
  }

  lemma ClampIdempotent(texWidth: nat, texHeight: nat, x: int, y: int, width: int, height: int)
    ensures var c := Clamp(texWidth, texHeight, x, y, width, height);
            Clamp(texWidth, texHeight, c.x, c.y, c.width, c.height) == c
  {
    ClampKeepsValidRequest(texWidth, texHeight, Clamp(texWidth, texHeight, x, y, width, height));
  }

  /** An x beyond the right edge is clamped, not rejected: reading from
      x = 100 with width 50 on a 50-pixel-wide texture reads from x = 0. */
  lemma ClampOutOfRangeX(texHeight: nat)
    ensures Clamp(50, texHeight, 100, 0, 50, texHeight) == Rect(0, 0, 50, texHeight)
  {
  }

  /** Size in bytes of the RGBA8 pixels of a rectangle. */
  function ByteSize(r: Rect): nat {
    r.width * r.height * 4
  }

  /** Offset of the first byte of pixel (px, py) in the texels of a texture
      of the given width. */
  function Offset(texWidth: nat, px: nat, py: nat): nat {
    (py * texWidth + px) * 4
  }

  lemma RowFits(tex: Texture, x: nat, y: nat, w: nat)
    requires tex.Valid() && x + w <= tex.width && y < tex.height
    ensures Offset(tex.width, x, y) + w * 4 <= |tex.texels|
  {
    assert y * tex.width + tex.width == (y + 1) * tex.width;
    assert (y + 1) * tex.width <= tex.height * tex.width by {
      MulMono(y + 1, tex.height, tex.width);
    }
    assert (y * tex.width + x + w) * 4 <= tex.height * tex.width * 4 by {
      MulMono(y * tex.width + x + w, tex.height * tex.width, 4);
    }
  }

  lemma MulMono(a: nat, b: nat, c: nat)
    requires a <= b
    ensures a * c <= b * c
  {
  }

  /** The w pixels of row y starting at column x. */
  function Row(tex: Texture, x: nat, y: nat, w: nat): (bytes: seq<byte>)
    requires tex.Valid() && x + w <= tex.width && y < tex.height
    ensures |bytes| == w * 4
  {
    RowFits(tex, x, y, w);
    tex.texels[Offset(tex.width, x, y) .. Offset(tex.width, x, y) + w * 4]
  }

  /** What `readPixels(x, y, width, height, RGBA, UNSIGNED_BYTE, ...)`
      produces: the rows of the rectangle, bottom row first, packed without
      padding (an RGBA8 row is always a multiple of four bytes). */
  function ReadRect(tex: Texture, r: Rect): (pixels: seq<byte>)
    requires tex.Valid() && Within(r, tex.width, tex.height)
    ensures |pixels| == ByteSize(r)
    decreases r.height
  {
    if r.height == 0 then []
    else
      var below := ReadRect(tex, r.(height := r.height - 1));
      assert r.width * (r.height - 1) * 4 + r.width * 4 == ByteSize(r);
      below + Row(tex, r.x, r.y + r.height - 1, r.width)
  }

  /** Byte c of pixel (i, j) of a w-by-h rectangle lies inside its bytes. */
  lemma IndexInside(w: nat, h: nat, i: nat, j: nat, c: nat)
    requires i < w && j < h && c < 4
    ensures (j * w + i) * 4 + c < w * h * 4
  {
    assert j * w + i < (j + 1) * w;
    MulMono(j + 1, h, w);
    assert j * w + i + 1 <= h * w;
    MulMono(j * w + i + 1, h * w, 4);
  }

  /** The first j rows of a rectangle. */
  function Rows(r: Rect, j: nat): (lower: Rect)
    requires j <= r.height
    ensures ByteSize(lower) <= ByteSize(r)
  {
    MulMono(j, r.height, r.width);
    r.(height := j)
  }

  lemma RowsStep(r: Rect, j: nat)
    requires j < r.height
    ensures ByteSize(Rows(r, j + 1)) == ByteSize(Rows(r, j)) + r.width * 4
  {
  }

  /** Row j of what a read returns is row y + j of the texture, from
      column x on. */
  lemma {:induction false} ReadRectRow(tex: Texture, r: Rect, j: nat)
    requires tex.Valid() && Within(r, tex.width, tex.height) && j < r.height
    ensures ByteSize(Rows(r, j)) <= ByteSize(Rows(r, j + 1))
    ensures ReadRect(tex, r)[ByteSize(Rows(r, j)) .. ByteSize(Rows(r, j + 1))]
            == Row(tex, r.x, r.y + j, r.width)
    decreases r.height
  {
    RowsStep(r, j);
    var lower := Rows(r, r.height - 1);
    var below := ReadRect(tex, lower);
    var all := ReadRect(tex, r);
    assert all == below + Row(tex, r.x, r.y + r.height - 1, r.width);
    if j < r.height - 1 {
      ReadRectRow(tex, lower, j);
      assert Rows(lower, j) == Rows(r, j) && Rows(lower, j + 1) == Rows(r, j + 1);
      assert ByteSize(Rows(r, j + 1)) <= |below|;
      assert all[ByteSize(Rows(r, j)) .. ByteSize(Rows(r, j + 1))]
          == below[ByteSize(Rows(r, j)) .. ByteSize(Rows(r, j + 1))];
    } else {
      assert Rows(r, j) == lower && Rows(r, j + 1) == r;
    }
  }

  /** Byte c of pixel (i, j) of the rectangle is byte c of texture pixel
      (x + i, y + j). */
  lemma ReadRectAt(tex: Texture, r: Rect, i: nat, j: nat, c: nat)
    requires tex.Valid() && Within(r, tex.width, tex.height)
    requires i < r.width && j < r.height && c < 4
    ensures (j * r.width + i) * 4 + c < ByteSize(r)
    ensures Offset(tex.width, r.x + i, r.y + j) + c < |tex.texels|
    ensures ReadRect(tex, r)[(j * r.width + i) * 4 + c]
            == tex.texels[Offset(tex.width, r.x + i, r.y + j) + c]
  {
    var start := ByteSize(Rows(r, j));
    ReadRectRow(tex, r, j);
    RowsStep(r, j);
    RowSplit(r.width, j, i, c);
    assert (j * r.width + i) * 4 + c == start + i * 4 + c;
    RowAt(tex, r.x, r.y + j, r.width, i, c);
    var all := ReadRect(tex, r);
    assert all[start + i * 4 + c] == all[start .. ByteSize(Rows(r, j + 1))][i * 4 + c];
  }

  lemma RowSplit(w: nat, j: nat, i: nat, c: nat)
    ensures (j * w + i) * 4 + c == w * j * 4 + i * 4 + c
  {
  }

  /** Byte c of pixel i of a row is byte c of texture pixel (x + i, y). */
  lemma RowAt(tex: Texture, x: nat, y: nat, w: nat, i: nat, c: nat)
    requires tex.Valid() && x + w <= tex.width && y < tex.height
    requires i < w && c < 4
    ensures i * 4 + c < w * 4
    ensures Offset(tex.width, x + i, y) + c < |tex.texels|
    ensures Row(tex, x, y, w)[i * 4 + c] == tex.texels[Offset(tex.width, x + i, y) + c]
  {
    var o := Offset(tex.width, x, y);
    RowFits(tex, x, y, w);
    SliceAt(tex.texels, o, w, i, c);
    OffsetStep(tex.width, x, y, i);
  }

  lemma OffsetStep(texWidth: nat, x: nat, y: nat, i: nat)
    ensures Offset(texWidth, x, y) + i * 4 == Offset(texWidth, x + i, y)
  {
  }

  lemma SliceAt(texels: seq<byte>, o: nat, w: nat, i: nat, c: nat)
    requires o + w * 4 <= |texels| && i < w && c < 4
    ensures i * 4 + c < w * 4
    ensures texels[o .. o + w * 4][i * 4 + c] == texels[o + i * 4 + c]
  {
  }
}
