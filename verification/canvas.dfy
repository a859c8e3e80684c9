/** The packed RGB pixel buffer the renderer fills (a GDK `Pixbuf` in
    src/main.rs): `height` rows of `rowstride` bytes, pixel (x, y) stored in
    the three bytes from `y*rowstride + x*n_channels`. Pixels are numbered in
    row-major order, pixel k being column `k % width` of row `k / width`.

    Products of two variables are written with `Times` and the row/column
    split with `Split`, both recursive, so that the solver only unfolds them
    on demand; `TimesIsMul` and `SplitIsDivMod` give their closed forms. */
module Canvas {

  import opened Numeric
  import opened Palettes

  datatype Layout = Layout(width: nat, height: nat, rowstride: nat, nChannels: nat) {

    /** Room for an RGB triple per pixel, and rows that do not overlap. */
    predicate Valid() {
      nChannels >= 3 && rowstride >= Times(width, nChannels)
    }

    /** `width * height`. */
    function Pixels(): nat {
      Times(height, width)
    }

    /** A buffer of `len` bytes covers every row; the last row needs no padding. */
    predicate Holds(len: nat) {
      height == 0 || Times(height - 1, rowstride) + Times(width, nChannels) <= len
    }

    /** The row-major number `y * width + x` of pixel (x, y). */
    function IndexOf(x: nat, y: nat): nat {
      Times(y, width) + x
    }

    /** `y * rowstride + x * n_channels`. */
    function Offset(x: nat, y: nat): nat {
      Times(y, rowstride) + Times(x, nChannels)
    }

    /** The byte offset of pixel k in row-major order: a pixel of the first
        row is `k * n_channels` bytes in, any later one a row below the pixel
        `width` before it. */
    function PixelOffset(k: nat): nat
      requires k < Pixels()
      decreases k
    {
      NonEmptyRows(this, k);
      if k < width then Times(k, nChannels) else PixelOffset(k - width) + rowstride
    }
  }

  /** `a * b` as repeated addition. */
  function Times(a: nat, b: nat): nat
    decreases a
  {
    if a == 0 then 0 else Times(a - 1, b) + b
  }

  lemma {:induction false} TimesIsMul(a: nat, b: nat)
    ensures Times(a, b) == a * b
    decreases a
  {
    if a > 0 {
      TimesIsMul(a - 1, b);
    }
  }

  lemma {:induction false} TimesMonotone(a: nat, b: nat, c: nat)
    requires a <= b
    ensures Times(a, c) <= Times(b, c)
    decreases b
  {
    if a < b {
      TimesMonotone(a, b - 1, c);
    }
  }

  lemma {:induction false} TimesByZero(a: nat)
    ensures Times(a, 0) == 0
    decreases a
  {
    if a > 0 {
      TimesByZero(a - 1);
    }
  }

  /** Column and row of pixel k, by repeated subtraction of the width. */
  function Split(w: nat, k: nat): (c: (nat, nat))
    requires w > 0
    decreases k
  {
    if k < w then (k, 0) else var c := Split(w, k - w); (c.0, c.1 + 1)
  }

  lemma {:induction false} SplitInverts(w: nat, k: nat)
    requires w > 0
    ensures Split(w, k).0 < w && Times(Split(w, k).1, w) + Split(w, k).0 == k
    decreases k
  {
    if k >= w {
      SplitInverts(w, k - w);
    }
  }

  /** Row-major numbering inverts the (column, row) split. */
  lemma {:induction false} SplitIndex(w: nat, x: nat, y: nat)
    requires x < w
    ensures Split(w, Times(y, w) + x) == (x, y)
    decreases y
  {
    if y > 0 {
      SplitIndex(w, x, y - 1);
      assert Times(y, w) + x - w == Times(y - 1, w) + x;
    }
  }

  /** A pixel number below the pixel count means a non-empty image, and its
      row and column lie inside it. */
  lemma NonEmptyRows(lay: Layout, k: nat)
    requires k < lay.Pixels()
    ensures lay.width > 0 && lay.height > 0
    ensures Split(lay.width, k).0 < lay.width && Split(lay.width, k).1 < lay.height
    ensures lay.IndexOf(Split(lay.width, k).0, Split(lay.width, k).1) == k
  {
    if lay.width == 0 {
      TimesByZero(lay.height);
    }
    var w := lay.width;
    SplitInverts(w, k);
    var y := Split(w, k).1;
    if y >= lay.height {
      TimesMonotone(lay.height, y, w);
    }
  }

  /** Pixel (x, y) is numbered below the pixel count. */
  lemma IndexInRange(lay: Layout, x: nat, y: nat)
    requires x < lay.width && y < lay.height
    ensures lay.IndexOf(x, y) < lay.Pixels()
  {
    TimesMonotone(y + 1, lay.height, lay.width);
  }

  /** The split is Euclidean division: column `k % w`, row `k / w`. */
  lemma SplitIsDivMod(w: nat, k: nat)
    requires w > 0
    ensures Split(w, k) == (k % w, k / w)
  {
    SplitInverts(w, k);
    TimesIsMul(Split(w, k).1, w);
    DivModUnique(w, k, Split(w, k).1, Split(w, k).0);
  }

  /** Euclidean division of k by w has only one answer. */
  lemma DivModUnique(w: nat, k: nat, q: nat, r: nat)
    requires w > 0 && r < w && k == q * w + r
    ensures k / w == q && k % w == r
  {
    var q', r' := k / w, k % w;
    if q' < q {
      MulMonotone(q' + 1, q, w);
    }
    if q' > q {
      MulMonotone(q + 1, q', w);
    }
  }

  lemma MulMonotone(a: nat, b: nat, c: nat)
    requires a <= b
    ensures a * c <= b * c
  {
  }

  /** Pixel k sits at the offset of its column and row. */
  lemma {:induction false} PixelOffsetSplit(lay: Layout, k: nat)
    requires k < lay.Pixels()
    ensures lay.width > 0
    ensures lay.PixelOffset(k) == lay.Offset(Split(lay.width, k).0, Split(lay.width, k).1)
    decreases k
  {
    NonEmptyRows(lay, k);
    if k >= lay.width {
      PixelOffsetSplit(lay, k - lay.width);
    }
  }

  /** The byte offset of pixel k, in closed form. */
  lemma PixelOffsetIs(lay: Layout, k: nat)
    requires k < lay.Pixels()
    ensures lay.width > 0
    ensures lay.PixelOffset(k) == (k / lay.width) * lay.rowstride + (k % lay.width) * lay.nChannels
  {
    NonEmptyRows(lay, k);
    PixelOffsetSplit(lay, k);
    SplitIsDivMod(lay.width, k);
    OffsetIs(lay, k % lay.width, k / lay.width);
  }

  lemma OffsetIs(lay: Layout, x: nat, y: nat)
    ensures lay.Offset(x, y) == y * lay.rowstride + x * lay.nChannels
  {
    TimesIsMul(y, lay.rowstride);
    TimesIsMul(x, lay.nChannels);
  }

  /** The three bytes of every pixel lie inside the buffer. */
  lemma PixelInBounds(lay: Layout, k: nat, len: nat)
    requires lay.Valid() && lay.Holds(len) && k < lay.Pixels()
    ensures lay.PixelOffset(k) + 3 <= len
  {
    NonEmptyRows(lay, k);
    PixelOffsetSplit(lay, k);
    CellInBounds(lay, Split(lay.width, k).0, Split(lay.width, k).1, len);
  }

  lemma CellInBounds(lay: Layout, x: nat, y: nat, len: nat)
    requires lay.Valid() && lay.Holds(len) && x < lay.width && y < lay.height
    ensures lay.Offset(x, y) + 3 <= len
  {
    TimesMonotone(y, lay.height - 1, lay.rowstride);
    TimesMonotone(x + 1, lay.width, lay.nChannels);
  }

  /** Pixels later in row-major order sit strictly later in the buffer, and
      their byte ranges do not overlap. */
  lemma PixelsInOrder(lay: Layout, j: nat, k: nat)
    requires lay.Valid() && j < k < lay.Pixels()
    ensures lay.PixelOffset(j) + 3 <= lay.PixelOffset(k)
  {
    NonEmptyRows(lay, j);
    NonEmptyRows(lay, k);
    PixelOffsetSplit(lay, j);
    PixelOffsetSplit(lay, k);
    var w := lay.width;
    var cj, ck := Split(w, j), Split(w, k);
    RowsInOrder(w, j, k);
    if cj.1 == ck.1 {
      SameRowOrder(lay, cj.0, ck.0, cj.1);
    } else {
      LaterRowOrder(lay, cj.0, cj.1, ck.0, ck.1);
    }
  }

  /** Later pixels never sit in an earlier row, and in the same row they sit
      in a later column. */
  lemma RowsInOrder(w: nat, j: nat, k: nat)
    requires w > 0 && j < k
    ensures Split(w, j).1 <= Split(w, k).1
    ensures Split(w, j).1 == Split(w, k).1 ==> Split(w, j).0 < Split(w, k).0
  {
    SplitInverts(w, j);
    SplitInverts(w, k);
    var yj, yk := Split(w, j).1, Split(w, k).1;
    var next := yk + 1;
    if yj > yk {
      TimesMonotone(next, yj, w);
    }
  }

  lemma SameRowOrder(lay: Layout, x1: nat, x2: nat, y: nat)
    requires lay.Valid() && x1 < x2
    ensures lay.Offset(x1, y) + 3 <= lay.Offset(x2, y)
  {
    TimesMonotone(x1 + 1, x2, lay.nChannels);
  }

  lemma LaterRowOrder(lay: Layout, x1: nat, y1: nat, x2: nat, y2: nat)
    requires lay.Valid() && x1 < lay.width && y1 < y2
    ensures lay.Offset(x1, y1) + 3 <= lay.Offset(x2, y2)
  {
    TimesMonotone(y1 + 1, y2, lay.rowstride);
    TimesMonotone(x1 + 1, lay.width, lay.nChannels);
  }

  /** The colour stored at pixel k. */
  function PixelAt(data: seq<Byte>, lay: Layout, k: nat): Rgb
    requires lay.Valid() && lay.Holds(|data|) && k < lay.Pixels()
  {
    PixelInBounds(lay, k, |data|);
    var o := lay.PixelOffset(k);
    Rgb(data[o], data[o + 1], data[o + 2])
  }

  /** `data[pos] = r; data[pos + 1] = g; data[pos + 2] = b` for pixel k. */
  function Paint(data: seq<Byte>, lay: Layout, k: nat, c: Rgb): (d: seq<Byte>)
    requires lay.Valid() && lay.Holds(|data|) && k < lay.Pixels()
    ensures |d| == |data|
  {
    PixelInBounds(lay, k, |data|);
    Write(data, lay.PixelOffset(k), [c.r, c.g, c.b])
  }

  /** `bytes` copied into `data` from offset `o` on, one byte at a time. */
  function Write(data: seq<Byte>, o: nat, bytes: seq<Byte>): (d: seq<Byte>)
    requires o + |bytes| <= |data|
    ensures |d| == |data|
    decreases |bytes|
  {
    if |bytes| == 0 then data else Write(data[o := bytes[0]], o + 1, bytes[1..])
  }

  /** Writing three bytes is three updates. */
  lemma WriteThree(data: seq<Byte>, o: nat, a: Byte, b: Byte, c: Byte)
    requires o + 3 <= |data|
    ensures Write(data, o, [a, b, c]) == data[o := a][o + 1 := b][o + 2 := c]
  {
    var d1, d2 := data[o := a], data[o := a][o + 1 := b];
    assert [a, b, c][1..] == [b, c] && [b, c][1..] == [c] && [c][1..] == [];
    assert Write(data, o, [a, b, c]) == Write(d1, o + 1, [b, c]);
    assert Write(d1, o + 1, [b, c]) == Write(d2, o + 2, [c]);
  }

  /** Painting pixel k gives it the colour and changes no byte outside its
      three. */
  lemma PaintWrites(data: seq<Byte>, lay: Layout, k: nat, c: Rgb)
    requires lay.Valid() && lay.Holds(|data|) && k < lay.Pixels()
    ensures PixelAt(Paint(data, lay, k, c), lay, k) == c
    ensures forall p :: 0 <= p < |data| && !(lay.PixelOffset(k) <= p < lay.PixelOffset(k) + 3) ==>
              Paint(data, lay, k, c)[p] == data[p]
  {
    PixelInBounds(lay, k, |data|);
    WriteThree(data, lay.PixelOffset(k), c.r, c.g, c.b);
  }

  /** Painting pixel k leaves every other pixel's colour as it was. */
  lemma PaintKeepsPixel(data: seq<Byte>, lay: Layout, k: nat, c: Rgb, j: nat)
    requires lay.Valid() && lay.Holds(|data|) && k < lay.Pixels() && j < lay.Pixels() && j != k
    ensures PixelAt(Paint(data, lay, k, c), lay, j) == PixelAt(data, lay, j)
  {
    PaintWrites(data, lay, k, c);
    PixelInBounds(lay, j, |data|);
    if j < k {
      PixelsInOrder(lay, j, k);
    } else {
      PixelsInOrder(lay, k, j);
    }
  }

  /** Colours `cols` written one after another to pixels lo, lo+1, ... */
  function PaintRun(data: seq<Byte>, lay: Layout, lo: nat, cols: seq<Rgb>): (d: seq<Byte>)
    requires lay.Valid() && lay.Holds(|data|) && lo + |cols| <= lay.Pixels()
    ensures |d| == |data|
    decreases |cols|
  {
    if |cols| == 0 then data
    else
      var last := |cols| - 1;
      Paint(PaintRun(data, lay, lo, cols[..last]), lay, lo + last, cols[last])
  }

  /** After a run, pixel lo+i holds the i-th colour of the run. */
  lemma {:induction false} PaintRunPaints(data: seq<Byte>, lay: Layout, lo: nat, cols: seq<Rgb>, k: nat)
    requires lay.Valid() && lay.Holds(|data|) && lo + |cols| <= lay.Pixels()
    requires lo <= k < lo + |cols|
    ensures PixelAt(PaintRun(data, lay, lo, cols), lay, k) == cols[k - lo]
    decreases |cols|
  {
    var last := |cols| - 1;
    var before := PaintRun(data, lay, lo, cols[..last]);
    if k < lo + last {
      PaintRunPaints(data, lay, lo, cols[..last], k);
      PaintKeepsPixel(before, lay, lo + last, cols[last], k);
    } else {
      PaintWrites(before, lay, lo + last, cols[last]);
    }
  }

  /** A run leaves every pixel outside it as it was. */
  lemma {:induction false} PaintRunKeepsOthers(data: seq<Byte>, lay: Layout, lo: nat, cols: seq<Rgb>, j: nat)
    requires lay.Valid() && lay.Holds(|data|) && lo + |cols| <= lay.Pixels()
    requires j < lay.Pixels() && (j < lo || j >= lo + |cols|)
    ensures PixelAt(PaintRun(data, lay, lo, cols), lay, j) == PixelAt(data, lay, j)
    decreases |cols|
  {
    if |cols| > 0 {
      var last := |cols| - 1;
      PaintRunKeepsOthers(data, lay, lo, cols[..last], j);
      PaintKeepsPixel(PaintRun(data, lay, lo, cols[..last]), lay, lo + last, cols[last], j);
    }
  }

  /** A run writes no byte outside the pixels it covers: row padding and
      other pixels' bytes are untouched. */
  lemma {:induction false} PaintRunFrame(data: seq<Byte>, lay: Layout, lo: nat, cols: seq<Rgb>, p: nat)
    requires lay.Valid() && lay.Holds(|data|) && lo + |cols| <= lay.Pixels()
    requires p < |data|
    requires forall k :: lo <= k < lo + |cols| ==> !(lay.PixelOffset(k) <= p < lay.PixelOffset(k) + 3)
    ensures PaintRun(data, lay, lo, cols)[p] == data[p]
    decreases |cols|
  {
    if |cols| > 0 {
      var last := |cols| - 1;
      PaintRunFrame(data, lay, lo, cols[..last], p);
      PaintWrites(PaintRun(data, lay, lo, cols[..last]), lay, lo + last, cols[last]);
    }
  }

  /** Painting a run and then the next run is painting their concatenation. */
  lemma {:induction false} PaintRunAppend(data: seq<Byte>, lay: Layout, lo: nat, a: seq<Rgb>, b: seq<Rgb>)
    requires lay.Valid() && lay.Holds(|data|) && lo + |a| + |b| <= lay.Pixels()
    ensures PaintRun(PaintRun(data, lay, lo, a), lay, lo + |a|, b) == PaintRun(data, lay, lo, a + b)
    decreases |b|
  {
    if |b| == 0 {
      assert a + b == a;
    } else {
      var last := |b| - 1;
      PaintRunAppend(data, lay, lo, a, b[..last]);
      assert (a + b)[..|a + b| - 1] == a + b[..last];
    }
  }
}
