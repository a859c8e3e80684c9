/** Progressive rendering (src/main.rs, `FractalRendering`): a producer walks
    the image in row-major order and sends one colour per pixel down a
    channel; `do_receive` drains whatever has arrived into the pixel buffer
    and remembers where it stopped, so that the next call resumes there.
    The channel is the sequence of colours waiting in it. */
module Render {

  import opened Numeric
  import opened Fractals
  import opened Palettes
  import opened Canvas

  /** A rendering in progress: the buffer and the position of the next pixel
      to fill. Reachable positions are the start (0, 0), a pixel of the
      image, or (width, height) once everything has arrived. */
  datatype Job = Job(layout: Layout, xpos: nat, ypos: nat, data: seq<Byte>) {

    predicate Valid() {
      && layout.Valid()
      && layout.Holds(|data|)
      && ((xpos == layout.width && ypos == layout.height)
          || (xpos < layout.width && ypos < layout.height)
          || (xpos == 0 && ypos == 0))
    }

    /** The test at the top of `do_receive`, negated. */
    predicate Complete(): (b: bool)
      ensures Valid() ==> (b <==> xpos == layout.width && ypos == layout.height)
    {
      !(xpos < layout.width || ypos < layout.height)
    }

    /** The row-major number of the next pixel to fill. */
    function Cursor(): (c: nat)
      requires Valid()
      ensures c <= layout.Pixels()
      ensures Complete() ==> c == layout.Pixels()
      ensures xpos < layout.width && ypos < layout.height ==> c < layout.Pixels()
    {
      if Complete() then layout.Pixels()
      else
        var c := layout.IndexOf(xpos, ypos);
        assert c <= layout.Pixels() && (xpos < layout.width && ypos < layout.height ==> c < layout.Pixels()) by {
          if xpos < layout.width && ypos < layout.height {
            IndexInRange(layout, xpos, ypos);
          }
        }
        c
    }

    /** What one call of `do_receive` does when the channel holds `q`: the
        closed form the drain loop is checked against. */
    function Receive(q: seq<Rgb>): (o: Drained)
      requires Valid()
      ensures o.job.Valid() && o.job.layout == layout
    {
      if Complete() then Drained(this, q, true) else Fill(layout, Cursor(), data, q)
    }
  }

  /** The drain of an unfinished rendering whose next pixel is `lo`: take
      colours until the channel is empty or the image is full. */
  function Fill(lay: Layout, lo: nat, data: seq<Byte>, q: seq<Rgb>): (o: Drained)
    requires lay.Valid() && lay.Holds(|data|) && lo <= lay.Pixels()
    ensures o.job.Valid() && o.job.layout == lay
  {
    var n := Min(|q|, lay.Pixels() - lo);
    Drained(JobAt(lay, lo + n, PaintRun(data, lay, lo, q[..n])), q[n..], lo + n == lay.Pixels())
  }

  /** One call of `do_receive`: a finished rendering is left alone and the
      call reports completion; otherwise the stored position moves on by the
      number of colours taken, which is every colour waiting unless the image
      fills up first; the call reports completion exactly when the image is
      full, and when it does not, the channel has been emptied and the stored
      position is a pixel of the image. */
  lemma ReceiveAdvances(j: Job, q: seq<Rgb>)
    requires j.Valid()
    ensures var o := j.Receive(q);
            && (j.Complete() ==> o == Drained(j, q, true))
            && (o.done <==> o.job.Complete())
            && o.job.Cursor() == Min(j.Cursor() + |q|, j.layout.Pixels())
            && o.rest == q[o.job.Cursor() - j.Cursor()..]
            && (!o.done ==> o.rest == [] && o.job.xpos < j.layout.width && o.job.ypos < j.layout.height)
  {
  }

  /** The state after a call of `do_receive`, the colours left in the channel,
      and the returned flag. */
  datatype Drained = Drained(job: Job, rest: seq<Rgb>, done: bool)

  /** `FractalRendering::new`: nothing received yet. */
  function NewJob(lay: Layout, data: seq<Byte>): (j: Job)
    requires lay.Valid() && lay.Holds(|data|)
    ensures j.Valid() && j.layout == lay && j.data == data
    ensures j.Cursor() == 0
  {
    Job(lay, 0, 0, data)
  }

  /** The state `do_receive` leaves once `k` pixels have arrived: the stored
      position is pixel k, or (width, height) when all have. */
  function JobAt(lay: Layout, k: nat, data: seq<Byte>): (j: Job)
    requires lay.Valid() && lay.Holds(|data|) && k <= lay.Pixels()
    ensures j.Valid() && j.layout == lay && j.data == data
    ensures j.Cursor() == k
    ensures j.Complete() <==> k == lay.Pixels()
    ensures k < lay.Pixels() ==> j.xpos < lay.width && j.ypos < lay.height
  {
    if k == lay.Pixels() then Job(lay, lay.width, lay.height, data)
    else
      NonEmptyRows(lay, k);
      var c := Split(lay.width, k);
      Job(lay, c.0, c.1, data)
  }

  /** `do_receive`: fill pixels from the stored position while colours are
      waiting; stop at the first empty `try_recv`, storing the position of
      the pixel that found the channel empty, or finish the image and store
      (width, height). */
  method DoReceive(j: Job, q: seq<Rgb>) returns (o: Drained)
    requires j.Valid()
    ensures o == j.Receive(q)
  {
    var lay := j.layout;
    var w, h := lay.width, lay.height;
    var nChannels, rowstride := lay.nChannels, lay.rowstride;
    if !(j.xpos < w || j.ypos < h) {
      return Drained(j, q, true);
    }
    var lo := j.Cursor();
    var data := j.data;
    var i := 0;
    var xpos := j.xpos;
    var y := j.ypos;
    while y < h
      invariant j.ypos <= y <= h
      invariant xpos == 0 || (y == j.ypos && xpos == j.xpos && xpos < w)
      invariant y == h ==> xpos == 0
      invariant i <= |q| && lo + i == lay.IndexOf(xpos, y) && lo + i <= lay.Pixels()
      invariant data == PaintRun(j.data, lay, lo, q[..i])
    {
      var x := xpos;
      while x < w
        invariant xpos <= x <= w
        invariant i <= |q| && lo + i == lay.IndexOf(x, y) && lo + i <= lay.Pixels()
        invariant data == PaintRun(j.data, lay, lo, q[..i])
      {
        if i == |q| {
          IndexInRange(lay, x, y);
          ReceiveEmptied(j, q, x, y, data);
          return Drained(Job(lay, x, y, data), q[i..], false);
        }
        var pos := y * rowstride + x * nChannels;
        DrainAdvances(j.data, lay, lo, q, i, x, y, pos, data);
        data := data[pos := q[i].r][pos + 1 := q[i].g][pos + 2 := q[i].b];
        i := i + 1;
        x := x + 1;
      }
      xpos := 0;
      y := y + 1;
    }
    ReceiveFinishes(j, q, i, data);
    return Drained(Job(lay, w, h, data), q[i..], true);
  }

  /** Writing the three bytes at `y * rowstride + x * n_channels` paints
      pixel (x, y). */
  lemma DrainStep(lay: Layout, data: seq<Byte>, x: nat, y: nat, pos: int, c: Rgb)
    requires lay.Valid() && lay.Holds(|data|) && x < lay.width && y < lay.height
    requires pos == y * lay.rowstride + x * lay.nChannels
    ensures lay.IndexOf(x, y) < lay.Pixels() && 0 <= pos && pos + 2 < |data|
    ensures data[pos := c.r][pos + 1 := c.g][pos + 2 := c.b] == Paint(data, lay, lay.IndexOf(x, y), c)
  {
    var k := lay.IndexOf(x, y);
    IndexInRange(lay, x, y);
    SplitIndex(lay.width, x, y);
    PixelOffsetSplit(lay, k);
    OffsetIs(lay, x, y);
    PixelInBounds(lay, k, |data|);
    WriteThree(data, pos, c.r, c.g, c.b);
  }

  /** One pass of the inner loop extends the painted run by one colour. */
  lemma DrainAdvances(base: seq<Byte>, lay: Layout, lo: nat, q: seq<Rgb>, i: nat, x: nat, y: nat, pos: int, data: seq<Byte>)
    requires lay.Valid() && lay.Holds(|base|) && x < lay.width && y < lay.height
    requires i < |q| && lo + i == lay.IndexOf(x, y) <= lay.Pixels()
    requires data == PaintRun(base, lay, lo, q[..i])
    requires pos == y * lay.rowstride + x * lay.nChannels
    ensures lo + i < lay.Pixels() && 0 <= pos && pos + 2 < |data|
    ensures data[pos := q[i].r][pos + 1 := q[i].g][pos + 2 := q[i].b] == PaintRun(base, lay, lo, q[..i + 1])
  {
    DrainStep(lay, data, x, y, pos, q[i]);
    PaintRunStep(base, lay, lo, q, i);
  }

  lemma PaintRunStep(data: seq<Byte>, lay: Layout, lo: nat, q: seq<Rgb>, i: nat)
    requires lay.Valid() && lay.Holds(|data|) && i < |q| && lo + i < lay.Pixels()
    ensures PaintRun(data, lay, lo, q[..i + 1]) == Paint(PaintRun(data, lay, lo, q[..i]), lay, lo + i, q[i])
  {
    assert q[..i + 1][..i] == q[..i];
  }

  /** The drain that started at pixel `lo` found the channel empty at pixel
      `lo + |q|`. */
  lemma ReceiveStops(j: Job, q: seq<Rgb>, lo: nat)
    requires j.Valid() && !j.Complete()
    requires lo == j.Cursor() && lo + |q| < j.layout.Pixels()
    ensures j.Receive(q) == Drained(JobAt(j.layout, lo + |q|, PaintRun(j.data, j.layout, lo, q)), [], false)
  {
    FillAll(j.layout, lo, j.data, q);
  }

  /** Fewer colours than pixels left: all are taken. */
  lemma FillAll(lay: Layout, lo: nat, data: seq<Byte>, q: seq<Rgb>)
    requires lay.Valid() && lay.Holds(|data|) && lo + |q| < lay.Pixels()
    ensures Fill(lay, lo, data, q) == Drained(JobAt(lay, lo + |q|, PaintRun(data, lay, lo, q)), [], false)
  {
    assert Min(|q|, lay.Pixels() - lo) == |q|;
    WholeSlices(q);
  }

  lemma WholeSlices<T>(q: seq<T>)
    ensures q[..|q|] == q && q[|q|..] == [] && q + [] == q
  {
  }

  lemma Associative<T>(a: seq<T>, b: seq<T>, c: seq<T>)
    ensures (a + b) + c == a + (b + c)
  {
  }

  /** Pixel (x, y) is stored as (x, y). */
  lemma JobAtPixel(lay: Layout, x: nat, y: nat, data: seq<Byte>)
    requires lay.Valid() && lay.Holds(|data|) && x < lay.width && y < lay.height
    ensures lay.IndexOf(x, y) < lay.Pixels()
    ensures JobAt(lay, lay.IndexOf(x, y), data) == Job(lay, x, y, data)
  {
    IndexInRange(lay, x, y);
    SplitIndex(lay.width, x, y);
  }

  /** The drain found the channel empty with pixel (x, y) next. */
  lemma ReceiveEmptied(j: Job, q: seq<Rgb>, x: nat, y: nat, data: seq<Byte>)
    requires j.Valid() && !j.Complete() && x < j.layout.width && y < j.layout.height
    requires j.Cursor() + |q| == j.layout.IndexOf(x, y) < j.layout.Pixels()
    requires data == PaintRun(j.data, j.layout, j.Cursor(), q[..|q|])
    ensures j.Receive(q) == Drained(Job(j.layout, x, y, data), q[|q|..], false)
  {
    WholeSlices(q);
    JobAtPixel(j.layout, x, y, data);
    ReceiveStops(j, q, j.Cursor());
  }

  /** The drain filled the last pixel after taking `i` colours. */
  lemma ReceiveFinishes(j: Job, q: seq<Rgb>, i: nat, data: seq<Byte>)
    requires j.Valid() && !j.Complete()
    requires i <= |q| && j.Cursor() + i == j.layout.Pixels()
    requires data == PaintRun(j.data, j.layout, j.Cursor(), q[..i])
    ensures j.Receive(q) == Drained(Job(j.layout, j.layout.width, j.layout.height, data), q[i..], true)
  {
  }

  /** Every colour of the run that arrived lands on its pixel. */
  lemma ReceiveFillsPixels(j: Job, q: seq<Rgb>, k: nat)
    requires j.Valid()
    requires j.Cursor() <= k < j.Receive(q).job.Cursor()
    ensures PixelAt(j.Receive(q).job.data, j.layout, k) == q[k - j.Cursor()]
  {
    var lo := j.Cursor();
    var n := Min(|q|, j.layout.Pixels() - lo);
    PaintRunPaints(j.data, j.layout, lo, q[..n], k);
  }

  /** Pixels before the stored position and pixels not yet reached keep
      their colour: a pixel is written once. */
  lemma ReceiveKeepsOtherPixels(j: Job, q: seq<Rgb>, k: nat)
    requires j.Valid() && k < j.layout.Pixels()
    requires k < j.Cursor() || k >= j.Receive(q).job.Cursor()
    ensures PixelAt(j.Receive(q).job.data, j.layout, k) == PixelAt(j.data, j.layout, k)
  {
    if !j.Complete() {
      var lo := j.Cursor();
      var n := Min(|q|, j.layout.Pixels() - lo);
      PaintRunKeepsOthers(j.data, j.layout, lo, q[..n], k);
    }
  }

  /** A call writes no byte outside the triples of the pixels it fills: row
      padding and the bytes of every other pixel are untouched. */
  lemma ReceiveWritesOnlyPixels(j: Job, q: seq<Rgb>, p: nat)
    requires j.Valid() && p < |j.data|
    requires forall k :: j.Cursor() <= k < j.Receive(q).job.Cursor() ==>
               !(j.layout.PixelOffset(k) <= p < j.layout.PixelOffset(k) + 3)
    ensures j.Receive(q).job.data[p] == j.data[p]
  {
    if !j.Complete() {
      var lo := j.Cursor();
      var n := Min(|q|, j.layout.Pixels() - lo);
      ReceiveAdvances(j, q);
      PaintRunFrame(j.data, j.layout, lo, q[..n], p);
    }
  }

  /** The drain is resumable: receiving `q1`, then receiving what was left
      over together with `q2`, is one receive of `q1 + q2`. */
  lemma ReceiveTwice(j: Job, q1: seq<Rgb>, q2: seq<Rgb>)
    requires j.Valid()
    ensures j.Receive(q1).job.Receive(j.Receive(q1).rest + q2) == j.Receive(q1 + q2)
  {
    if !j.Complete() {
      ReceiveAdvances(j, q1);
      if j.Receive(q1).done {
        ReceiveTwiceDone(j, q1, q2);
      } else {
        ReceiveTwiceWaiting(j, q1, q2);
      }
    }
  }

  /** The first receive filled the last pixel: the second takes nothing and
      the leftovers are `q1`'s surplus followed by `q2`. */
  lemma ReceiveTwiceDone(j: Job, q1: seq<Rgb>, q2: seq<Rgb>)
    requires j.Valid() && !j.Complete() && j.Receive(q1).done
    ensures j.Receive(q1).job.Receive(j.Receive(q1).rest + q2) == j.Receive(q1 + q2)
  {
    var lay, lo := j.layout, j.Cursor();
    var o1 := j.Receive(q1);
    ReceiveAdvances(j, q1);
    var n1 := Min(|q1|, lay.Pixels() - lo);
    assert n1 == lay.Pixels() - lo;
    assert (q1 + q2)[..n1] == q1[..n1];
    assert (q1 + q2)[n1..] == o1.rest + q2;
  }

  /** The first receive emptied the channel: the second continues at the
      pixel after `q1`'s last one. */
  lemma ReceiveTwiceWaiting(j: Job, q1: seq<Rgb>, q2: seq<Rgb>)
    requires j.Valid() && !j.Complete() && !j.Receive(q1).done
    ensures j.Receive(q1).job.Receive(j.Receive(q1).rest + q2) == j.Receive(q1 + q2)
  {
    var lay, lo := j.layout, j.Cursor();
    assert lo + |q1| < lay.Pixels() by {
      ReceiveAdvances(j, q1);
    }
    var mid := PaintRun(j.data, lay, lo, q1);
    var m := JobAt(lay, lo + |q1|, mid);
    ReceiveStops(j, q1, lo);
    var o1 := j.Receive(q1);
    assert o1.job == m && o1.rest + q2 == q2;
    ReceiveAt(lay, lo + |q1|, mid, q2);
    FillTwice(lay, lo, j.data, q1, q2);
    ReceiveIsFill(j, q1 + q2, lo);
  }

  /** An unfinished rendering fills from its stored position. */
  lemma ReceiveIsFill(j: Job, q: seq<Rgb>, lo: nat)
    requires j.Valid() && !j.Complete() && lo == j.Cursor()
    ensures j.Receive(q) == Fill(j.layout, lo, j.data, q)
  {
  }

  /** A receive at the job stored at pixel `k` fills from pixel `k`. */
  lemma ReceiveAt(lay: Layout, k: nat, data: seq<Byte>, q: seq<Rgb>)
    requires lay.Valid() && lay.Holds(|data|) && k < lay.Pixels()
    ensures JobAt(lay, k, data).Receive(q) == Fill(lay, k, data, q)
  {
    var m := JobAt(lay, k, data);
    assert m.Cursor() == k && !m.Complete() && m.data == data;
  }

  /** Filling `q1` without reaching the end, then filling on from the next
      pixel with `q2`, is filling with `q1 + q2`. */
  lemma FillTwice(lay: Layout, lo: nat, data: seq<Byte>, q1: seq<Rgb>, q2: seq<Rgb>)
    requires lay.Valid() && lay.Holds(|data|) && lo + |q1| < lay.Pixels()
    ensures Fill(lay, lo + |q1|, PaintRun(data, lay, lo, q1), q2) == Fill(lay, lo, data, q1 + q2)
  {
    var P := lay.Pixels();
    var n2 := Min(|q2|, P - (lo + |q1|));
    var n := |q1| + n2;
    assert n == Min(|q1 + q2|, P - lo);
    var mid := PaintRun(data, lay, lo, q1);
    var d := PaintRun(mid, lay, lo + |q1|, q2[..n2]);
    assert Fill(lay, lo + |q1|, mid, q2) == Drained(JobAt(lay, lo + n, d), q2[n2..], lo + n == P);
    assert (q1 + q2)[..n] == q1 + q2[..n2];
    assert (q1 + q2)[n..] == q2[n2..];
    assert Fill(lay, lo, data, q1 + q2) == Drained(JobAt(lay, lo + n, PaintRun(data, lay, lo, (q1 + q2)[..n])), q2[n2..], lo + n == P);
    PaintRunAppend(data, lay, lo, q1, q2[..n2]);
  }

  /** All the colours handed to a sequence of `do_receive` calls. */
  function Concat(arrivals: seq<seq<Rgb>>): (s: seq<Rgb>)
    decreases |arrivals|
  {
    if |arrivals| == 0 then [] else arrivals[0] + Concat(arrivals[1..])
  }

  /** A sequence of redraws: before each call of `do_receive`, the colours
      `arrivals[i]` reach the channel behind those still waiting. */
  function Session(j: Job, pending: seq<Rgb>, arrivals: seq<seq<Rgb>>): (o: Drained)
    requires j.Valid()
    ensures o.job.Valid() && o.job.layout == j.layout
    decreases |arrivals|
  {
    if |arrivals| == 0 then Drained(j, pending, j.Complete())
    else
      var o := j.Receive(pending + arrivals[0]);
      Session(o.job, o.rest, arrivals[1..])
  }

  /** However the colours are split across calls, the outcome is that of one
      call receiving all of them. */
  lemma {:induction false} SessionIsOneReceive(j: Job, pending: seq<Rgb>, arrivals: seq<seq<Rgb>>)
    requires j.Valid() && |arrivals| > 0
    ensures Session(j, pending, arrivals) == j.Receive(pending + Concat(arrivals))
    decreases |arrivals|
  {
    var first := pending + arrivals[0];
    var o := j.Receive(first);
    var tail := arrivals[1..];
    assert Session(j, pending, arrivals) == Session(o.job, o.rest, tail);
    assert Concat(arrivals) == arrivals[0] + Concat(tail);
    Associative(pending, arrivals[0], Concat(tail));
    if |tail| == 0 {
      WholeSlices(first);
      ReceiveAdvances(j, first);
    } else {
      SessionIsOneReceive(o.job, o.rest, tail);
      ReceiveTwice(j, first, Concat(tail));
    }
  }

  /** Once `do_receive` has returned true, later calls change nothing. */
  lemma DoneStaysDone(j: Job, q: seq<Rgb>, more: seq<seq<Rgb>>)
    requires j.Valid() && j.Receive(q).done
    ensures Session(j.Receive(q).job, j.Receive(q).rest, more).job == j.Receive(q).job
    ensures Session(j.Receive(q).job, j.Receive(q).rest, more).done
  {
    var o := j.Receive(q);
    if |more| > 0 {
      SessionIsOneReceive(o.job, o.rest, more);
    }
  }

  /** The image of a colouring in row-major order. */
  function RowMajor(w: nat, h: nat, colorAt: (int, int) -> Rgb): (s: seq<Rgb>)
    ensures |s| == w * h == Times(h, w)
    ensures forall k :: 0 <= k < |s| ==> w > 0 && s[k] == colorAt(k % w, k / w)
  {
    TimesIsMul(h, w);
    if w == 0 then []
    else seq(w * h, k requires 0 <= k < w * h => colorAt(k % w, k / w))
  }

  /** The colour the producer computes for pixel (x, y): `palette.color` of
      `fractal.calc` at the point the view transform assigns to it. A pixel
      whose escape value reads 0 is black whatever the palette state, and
      with a budget of 0 every value is NaN and every pixel is black. */
  function PixelColor(f: Fractal, p: Palette, xform: (int, int) -> Complex): (c: (int, int) -> Rgb)
    ensures forall x: int, y: int :: f.Calc(xform(x, y)) == Num(0.0) ==> c(x, y) == Black
    ensures f.maxiter == 0 ==> forall x: int, y: int :: c(x, y) == Black
  {
    (x: int, y: int) => p.Color(f.Calc(xform(x, y)))
  }

  /** The producer thread: compute and send one colour per pixel, row by row;
      `accepts(k)` says whether the k-th send succeeds (it fails once the
      receiving rendering has been dropped). The thread stops at the first
      failed send. `sent` lists the colours delivered. */
  method Produce(w: nat, h: nat, colorAt: (int, int) -> Rgb, accepts: nat -> bool) returns (sent: seq<Rgb>)
    ensures |sent| <= w * h
    ensures forall k :: 0 <= k < |sent| ==> accepts(k) && sent[k] == colorAt(k % w, k / w)
    ensures |sent| < w * h ==> !accepts(|sent|)
    ensures sent == RowMajor(w, h, colorAt)[..|sent|]
  {
    TimesIsMul(h, w);
    sent := [];
    var y := 0;
    while y < h
      invariant y <= h && |sent| == Times(y, w)
      invariant SentInOrder(sent, w, colorAt, accepts)
    {
      var x := 0;
      while x < w
        invariant x <= w && |sent| == Times(y, w) + x
        invariant SentInOrder(sent, w, colorAt, accepts)
      {
        if !accepts(|sent|) {
          TimesMonotone(y + 1, h, w);
          SentIsPrefix(sent, w, h, colorAt, accepts);
          return;
        }
        SendStep(sent, w, x, y, colorAt, accepts);
        sent := sent + [colorAt(x, y)];
        x := x + 1;
      }
      y := y + 1;
    }
    SentIsPrefix(sent, w, h, colorAt, accepts);
  }

  /** What the producer has sent is the start of the image. */
  lemma SentIsPrefix(sent: seq<Rgb>, w: nat, h: nat, colorAt: (int, int) -> Rgb, accepts: nat -> bool)
    requires SentInOrder(sent, w, colorAt, accepts) && |sent| <= w * h
    ensures sent == RowMajor(w, h, colorAt)[..|sent|]
  {
  }

  /** Every colour sent so far was accepted and belongs to its pixel. */
  ghost predicate SentInOrder(sent: seq<Rgb>, w: nat, colorAt: (int, int) -> Rgb, accepts: nat -> bool) {
    forall k :: 0 <= k < |sent| ==> w > 0 && accepts(k) && sent[k] == colorAt(k % w, k / w)
  }

  lemma SendStep(sent: seq<Rgb>, w: nat, x: nat, y: nat, colorAt: (int, int) -> Rgb, accepts: nat -> bool)
    requires x < w && |sent| == Times(y, w) + x && accepts(|sent|)
    requires SentInOrder(sent, w, colorAt, accepts)
    ensures SentInOrder(sent + [colorAt(x, y)], w, colorAt, accepts)
  {
    TimesIsMul(y, w);
    SplitIndex(w, x, y);
    SplitIsDivMod(w, Times(y, w) + x);
  }

  /** End to end: if the colours arriving over a sequence of redraws are the
      producer's output so far, the buffer shows exactly the first pixels of
      the image, the stored position counts them, and `do_receive` reports
      completion exactly when every pixel has arrived. */
  lemma RenderShowsImage(lay: Layout, data: seq<Byte>, colorAt: (int, int) -> Rgb, arrivals: seq<seq<Rgb>>)
    requires lay.Valid() && lay.Holds(|data|) && |arrivals| > 0
    requires Concat(arrivals) <= RowMajor(lay.width, lay.height, colorAt)
    ensures Session(NewJob(lay, data), [], arrivals).job.Cursor() == |Concat(arrivals)|
    ensures Session(NewJob(lay, data), [], arrivals).done <==> |Concat(arrivals)| == lay.Pixels()
    ensures forall k :: 0 <= k < |Concat(arrivals)| ==>
              PixelAt(Session(NewJob(lay, data), [], arrivals).job.data, lay, k) == colorAt(k % lay.width, k / lay.width)
  {
    var all := Concat(arrivals);
    SessionIsOneReceive(NewJob(lay, data), [], arrivals);
    assert [] + all == all;
    FirstReceiveCounts(lay, data, colorAt, all);
    FirstReceiveShows(lay, data, colorAt, all);
  }

  /** One receive of a prefix of the image into a fresh rendering stores the
      position after it and reports completion exactly for the whole image. */
  lemma FirstReceiveCounts(lay: Layout, data: seq<Byte>, colorAt: (int, int) -> Rgb, all: seq<Rgb>)
    requires lay.Valid() && lay.Holds(|data|)
    requires all <= RowMajor(lay.width, lay.height, colorAt)
    ensures NewJob(lay, data).Receive(all).job.Cursor() == |all|
    ensures NewJob(lay, data).Receive(all).done <==> |all| == lay.Pixels()
  {
    ReceiveAdvances(NewJob(lay, data), all);
  }

  /** One receive of a prefix of the image into a fresh rendering paints
      that prefix. */
  lemma FirstReceiveShows(lay: Layout, data: seq<Byte>, colorAt: (int, int) -> Rgb, all: seq<Rgb>)
    requires lay.Valid() && lay.Holds(|data|)
    requires all <= RowMajor(lay.width, lay.height, colorAt)
    ensures forall k :: 0 <= k < |all| ==>
              PixelAt(NewJob(lay, data).Receive(all).job.data, lay, k) == colorAt(k % lay.width, k / lay.width)
  {
    var j := NewJob(lay, data);
    FirstReceiveCounts(lay, data, colorAt, all);
    forall k | 0 <= k < |all|
      ensures PixelAt(j.Receive(all).job.data, lay, k) == colorAt(k % lay.width, k / lay.width)
    {
      ReceiveFillsPixels(j, all, k);
    }
  }


}
