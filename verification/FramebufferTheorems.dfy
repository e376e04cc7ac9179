/** What the framebuffer promises the consumer of its damage, over every run. */
module FramebufferTheorems {
  import opened Basics
  import opened Framebuffer

  // ----- Rectangles ----------------------------------------------------------

  ghost predicate Contains(outer: Rect, inner: Rect) {
    forall x: nat, y: nat :: inner.Covers(x, y) ==> outer.Covers(x, y)
  }

  /** A rectangle holds a non-empty one when it holds its first and last pixel. */
  lemma ContainsCorners(outer: Rect, inner: Rect)
    requires !inner.IsEmpty()
    ensures Contains(outer, inner) <==>
            && outer.left <= inner.left && outer.top <= inner.top
            && inner.left + inner.width <= outer.left + outer.width
            && inner.top + inner.height <= outer.top + outer.height
  {
    if Contains(outer, inner) {
      assert inner.Covers(inner.left, inner.top);
      assert inner.Covers(inner.left + inner.width - 1, inner.top + inner.height - 1);
    }
  }

  /** The union is the least bounding box: a rectangle holds it exactly when it holds both. */
  lemma UnionIsLeast(outer: Rect, a: Rect, b: Rect)
    ensures Contains(outer, a.Union(b)) <==> Contains(outer, a) && Contains(outer, b)
  {
    if !a.IsEmpty() && !b.IsEmpty() {
      ContainsCorners(outer, a);
      ContainsCorners(outer, b);
      ContainsCorners(outer, a.Union(b));
    }
  }

  lemma UnionIsAssociative(a: Rect, b: Rect, c: Rect)
    ensures a.Union(b).Union(c) == a.Union(b.Union(c))
    ensures !a.IsEmpty() && !b.IsEmpty() ==> a.Union(b) == b.Union(a)
  {
  }

  /** The damage pending after a series of marks. */
  function MarkedAll(damage: seq<Rect>, rects: seq<Rect>): seq<Rect>
    decreases |rects|
  {
    if rects == [] then damage else MarkedAll(Marked(damage, rects[0]), rects[1..])
  }

  ghost predicate ContainsAll(outer: Rect, rects: seq<Rect>) {
    forall k :: 0 <= k < |rects| ==> Contains(outer, rects[k])
  }

  /** However many rectangles are marked, one is pending, and it is the least box around them all. */
  lemma {:induction false} PendingDamageIsLeastBox(outer: Rect, rects: seq<Rect>)
    requires rects != []
    ensures |MarkedAll([], rects)| == 1
    ensures Contains(outer, MarkedAll([], rects)[0]) <==> ContainsAll(outer, rects)
  {
    hide ContainsAll, Contains;
    assert Marked([], rects[0]) == [rects[0]];
    MarksMerge(outer, rects[0], rects[1..]);
    ContainsAllSplit(outer, rects);
  }

  lemma ContainsAllSplit(outer: Rect, rects: seq<Rect>)
    requires rects != []
    ensures ContainsAll(outer, rects) <==> Contains(outer, rects[0]) && ContainsAll(outer, rects[1..])
  {
    hide Contains;
    assert forall k :: 0 < k < |rects| ==> rects[k] == rects[1..][k - 1];
  }

  lemma MarkOnto(pending: Rect, rect: Rect)
    ensures Marked([pending], rect) == [pending.Union(rect)]
  {
  }

  lemma {:induction false} MarksMerge(outer: Rect, pending: Rect, rects: seq<Rect>)
    ensures |MarkedAll([pending], rects)| == 1
    ensures Contains(outer, MarkedAll([pending], rects)[0]) <==> Contains(outer, pending) && ContainsAll(outer, rects)
    decreases |rects|
  {
    hide Contains, Rect.Union, Marked;
    if rects != [] {
      hide ContainsAll;
      MarkOnto(pending, rects[0]);
      UnionIsLeast(outer, pending, rects[0]);
      MarksMerge(outer, pending.Union(rects[0]), rects[1..]);
      ContainsAllSplit(outer, rects);
    }
  }

  // ----- Single operations, pixel by pixel -----------------------------------

  /** A new frame has at least one pixel, is black and has nothing to show. */
  lemma NewIsBlack(width: nat, height: nat)
    requires Sized(Max(width, 1), Max(height, 1))
    ensures var f, w, h := New(width, height), Max(width, 1), Max(height, 1);
            && f.width == w && f.height == h && f.damage == []
            && |f.pixels| == w * h * 4 && forall i :: 0 <= i < |f.pixels| ==> f.pixels[i] == 0
  {
  }

  /** A fill paints, byte by byte of the colour, the pixels of the frame that the rectangle covers; one that begins
      outside is drawn from the last column or row on, and nothing else is changed. */
  lemma FillPaints(f: Frame, rect: Rect, bgra: Bgra, x: nat, y: nat, c: nat)
    requires Valid(f) && x < f.width && y < f.height && c < 4
    ensures At(f.width, x, y, c) < |f.pixels| == |Fill(f, rect, bgra).pixels|
    ensures var left := if rect.left < f.width then rect.left else f.width - 1;
            var top := if rect.top < f.height then rect.top else f.height - 1;
            Fill(f, rect, bgra).pixels[At(f.width, x, y, c)]
            == if left <= x < left + rect.width && top <= y < top + rect.height then bgra[c]
               else f.pixels[At(f.width, x, y, c)]
  {
    hide At;
    FrameHolds(f.width, f.height, x, y, c);
    AddressRoundTrip(f.width, x, y, c);
  }

  /** A bitmap inside the frame changes exactly its rectangle; a truncated one changes nothing. */
  lemma BlitChangesItsRectangle(f: Frame, rect: Rect, data: seq<byte>, x: nat, y: nat, c: nat)
    requires Valid(f) && rect.left + rect.width <= f.width && rect.top + rect.height <= f.height
    requires x < f.width && y < f.height && c < 4
    ensures At(f.width, x, y, c) < |f.pixels|
    ensures var r := Blit(f, rect, data).pixels;
            && |r| == |f.pixels|
            && if rect.Covers(x, y) && |data| >= rect.width * rect.height * 4
               then At(rect.width, x - rect.left, y - rect.top, c) < |data|
                    && r[At(f.width, x, y, c)] == data[At(rect.width, x - rect.left, y - rect.top, c)]
               else r[At(f.width, x, y, c)] == f.pixels[At(f.width, x, y, c)]
  {
    hide At;
    FrameHolds(f.width, f.height, x, y, c);
    AddressRoundTrip(f.width, x, y, c);
    if rect.Covers(x, y) {
      FrameHolds(rect.width, rect.height, x - rect.left, y - rect.top, c);
      assert rect.Clamped(f.width, f.height) == rect;
    } else if !rect.IsEmpty() {
      assert rect.Clamped(f.width, f.height) == rect;
    }
  }

  /** A resize keeps every pixel that is in both frames and leaves the others black. */
  lemma ResizeKeepsOverlap(f: Frame, width: nat, height: nat, x: nat, y: nat, c: nat)
    requires Valid(f) && Sized(Max(width, 1), Max(height, 1))
    requires x < Max(width, 1) && y < Max(height, 1) && c < 4
    ensures At(Max(width, 1), x, y, c) < |Resize(f, width, height).pixels|
    ensures if x < f.width && y < f.height
            then At(f.width, x, y, c) < |f.pixels|
                 && Resize(f, width, height).pixels[At(Max(width, 1), x, y, c)] == f.pixels[At(f.width, x, y, c)]
            else Resize(f, width, height).pixels[At(Max(width, 1), x, y, c)] == 0
  {
    hide At;
    FrameHolds(Max(width, 1), Max(height, 1), x, y, c);
    AddressRoundTrip(Max(width, 1), x, y, c);
    if x < f.width && y < f.height {
      FrameHolds(f.width, f.height, x, y, c);
    }
  }

  /** Growing and going back restores the frame. */
  lemma GrowThenShrink(f: Frame, width: nat, height: nat)
    requires Valid(f) && Sized(width, height) && f.width <= width && f.height <= height
    ensures Resize(Resize(f, width, height), f.width, f.height).pixels == f.pixels
  {
    hide At, Column, RowOf, Resize;
    var grown := Resize(f, width, height);
    SizeAfterResize(f, width, height);
    SizeAfterResize(grown, f.width, f.height);
    forall i | 0 <= i < |f.pixels| ensures Resize(grown, f.width, f.height).pixels[i] == f.pixels[i] {
      ByteSurvives(f, grown, i);
    }
  }

  lemma ByteSurvives(f: Frame, grown: Frame, i: nat)
    requires Valid(f) && Valid(grown) && f.width <= grown.width && f.height <= grown.height && i < |f.pixels|
    requires grown == Resize(f, grown.width, grown.height)
    ensures |Resize(grown, f.width, f.height).pixels| == |f.pixels|
    ensures Resize(grown, f.width, f.height).pixels[i] == f.pixels[i]
  {
    hide At, Column, RowOf, Resize;
    var x, y, c := Column(f.width, i), RowOf(f.width, i), i % 4;
    CoordinatesRoundTrip(f.width, i);
    InFrame(f.width, f.height, i);
    SizeAfterResize(grown, f.width, f.height);
    ResizeKeepsOverlap(f, grown.width, grown.height, x, y, c);
    ResizeKeepsOverlap(grown, f.width, f.height, x, y, c);
  }

  lemma SizeAfterResize(f: Frame, width: nat, height: nat)
    requires Valid(f) && Sized(width, height)
    ensures var r := Resize(f, width, height);
            r.width == width && r.height == height && |r.pixels| == width * height * 4
  {
  }

  // ----- Bitmaps that hang over the edge -------------------------------------

  /** The frame shows the caller's bitmap where its rectangle lies, and is unchanged elsewhere. */
  ghost predicate ShowsBitmap(f: Frame, rect: Rect, data: seq<byte>)
    requires Valid(f) && |data| == rect.width * rect.height * 4
  {
    forall i :: 0 <= i < |f.pixels| ==> Blit(f, rect, data).pixels[i] == Expected(f, rect, data, i)
  }

  function Expected(f: Frame, rect: Rect, data: seq<byte>, i: nat): byte
    requires Valid(f) && |data| == rect.width * rect.height * 4 && i < |f.pixels|
  {
    if rect.Covers(Column(f.width, i), RowOf(f.width, i))
    then (SourceInBitmap(f.width, rect, i); data[Source(f.width, rect, rect.width, i)])
    else f.pixels[i]
  }

  /** The rows of the caller's bitmap are read as the code reads them: the rectangle starts inside the frame,
      and either no column is cut off or no second row is drawn. */
  predicate ReadsRowsRight(f: Frame, rect: Rect) {
    || rect.IsEmpty()
    || (rect.left < f.width && rect.top < f.height
        && (rect.left + rect.width <= f.width || Min(rect.height, f.height - rect.top) <= 1))
  }

  /** The code indexes the bitmap with the width left after clamping, and it moves a rectangle that starts outside
      onto the last column or row. So every bitmap of the rectangle's size is shown in its place exactly when
      the rectangle starts inside and has no cut-off columns, or only one row of it is drawn. */
  lemma BitmapsAreShownIff(f: Frame, rect: Rect)
    requires Valid(f)
    ensures (forall data: seq<byte> | |data| == rect.width * rect.height * 4 :: ShowsBitmap(f, rect, data))
       <==> ReadsRowsRight(f, rect)
  {
    hide ShowsBitmap;
    if ReadsRowsRight(f, rect) {
      forall data: seq<byte> | |data| == rect.width * rect.height * 4 ensures ShowsBitmap(f, rect, data) {
        RightRowsAreShown(f, rect, data);
      }
    } else if rect.left >= f.width || rect.top >= f.height {
      var data := OutsideIsDrawn(f, rect);
      assert !ShowsBitmap(f, rect, data);
    } else {
      var data := CutRowsAreSheared(f, rect);
      assert !ShowsBitmap(f, rect, data);
    }
  }

  lemma EnoughData(f: Frame, rect: Rect)
    requires Valid(f)
    ensures var c := rect.Clamped(f.width, f.height); c.width * c.height * 4 <= rect.width * rect.height * 4
  {
    var c := rect.Clamped(f.width, f.height);
    Monotone(c.width, rect.width, c.height);
    Monotone(c.height, rect.height, rect.width);
    assert c.width * c.height <= rect.width * c.height == c.height * rect.width <= rect.height * rect.width;
  }

  lemma RightRowsAreShown(f: Frame, rect: Rect, data: seq<byte>)
    requires Valid(f) && |data| == rect.width * rect.height * 4 && ReadsRowsRight(f, rect)
    ensures ShowsBitmap(f, rect, data)
  {
    hide At, Column, RowOf, Source;
    var c := rect.Clamped(f.width, f.height);
    EnoughData(f, rect);
    forall i | 0 <= i < |f.pixels| ensures Blit(f, rect, data).pixels[i] == Expected(f, rect, data, i) {
      InFrame(f.width, f.height, i);
      if !c.IsEmpty() && c.Covers(Column(f.width, i), RowOf(f.width, i)) {
        SourceInBitmap(f.width, rect, i);
        SourceInBitmap(f.width, c, i);
        SameSource(f, rect, i);
      }
    }
  }

  lemma SameSource(f: Frame, rect: Rect, i: nat)
    requires Valid(f) && ReadsRowsRight(f, rect) && !rect.IsEmpty()
    requires var c := rect.Clamped(f.width, f.height); c.Covers(Column(f.width, i), RowOf(f.width, i))
    ensures var c := rect.Clamped(f.width, f.height);
            rect.Covers(Column(f.width, i), RowOf(f.width, i))
            && Source(f.width, c, c.width, i) == Source(f.width, rect, rect.width, i)
  {
    hide Column, RowOf;
    var c := rect.Clamped(f.width, f.height);
    if c.width != rect.width {
      assert RowOf(f.width, i) - rect.top == 0;
    }
  }

  /** A rectangle that starts outside the frame draws on its last column or row. */
  lemma OutsideIsDrawn(f: Frame, rect: Rect) returns (data: seq<byte>)
    requires Valid(f) && !rect.IsEmpty() && (rect.left >= f.width || rect.top >= f.height)
    ensures |data| == rect.width * rect.height * 4 && !ShowsBitmap(f, rect, data)
  {
    hide At;
    var c := rect.Clamped(f.width, f.height);
    EnoughData(f, rect);
    FrameHolds(f.width, f.height, c.left, c.top, 0);
    AddressRoundTrip(f.width, c.left, c.top, 0);
    var i := At(f.width, c.left, c.top, 0);
    var other: byte := if f.pixels[i] == 0 then 1 else 0;
    data := Repeat(rect.width * rect.height * 4, other);
    SourceInBitmap(f.width, c, i);
    assert Blit(f, rect, data).pixels[i] == other;
    assert Expected(f, rect, data, i) == f.pixels[i];
  }

  /** When columns are cut off, the second row drawn starts inside the first row of the bitmap. */
  lemma CutRowsAreSheared(f: Frame, rect: Rect) returns (data: seq<byte>)
    requires Valid(f) && !ReadsRowsRight(f, rect) && rect.left < f.width && rect.top < f.height
    ensures |data| == rect.width * rect.height * 4 && !ShowsBitmap(f, rect, data)
  {
    var c := rect.Clamped(f.width, f.height);
    EnoughData(f, rect);
    FrameHolds(f.width, f.height, c.left, c.top + 1, 0);
    AddressRoundTrip(f.width, c.left, c.top + 1, 0);
    var i := At(f.width, c.left, c.top + 1, 0);
    FrameHolds(rect.width, rect.height, 0, 1, 0);
    var mark := c.width * 4;
    data := Repeat(rect.width * rect.height * 4, 0)[mark := 1];
    SecondRow(f, rect, c, data, i);
  }

  lemma SecondRowSource(w: nat, rect: Rect, i: nat)
    requires w > 0 && rect.Covers(rect.left, rect.top + 1)
    requires Column(w, i) == rect.left && RowOf(w, i) == rect.top + 1 && i % 4 == 0
    ensures Source(w, rect, rect.width, i) == rect.width * 4
  {
    hide Column, RowOf;
  }

  lemma SecondRow(f: Frame, rect: Rect, c: Rect, data: seq<byte>, i: nat)
    requires Valid(f) && c == rect.Clamped(f.width, f.height) && c.left == rect.left && c.top == rect.top
    requires c.width < rect.width && 2 <= c.height && !c.IsEmpty()
    requires i < |f.pixels| && Column(f.width, i) == c.left && RowOf(f.width, i) == c.top + 1 && i % 4 == 0
    requires |data| == rect.width * rect.height * 4 >= c.width * c.height * 4
    requires rect.width * 4 < |data| && data[c.width * 4] == 1 && data[rect.width * 4] == 0
    ensures !ShowsBitmap(f, rect, data)
  {
    hide Column, RowOf, At, Source;
    SourceInBitmap(f.width, c, i);
    SourceInBitmap(f.width, rect, i);
    SecondRowSource(f.width, c, i);
    SecondRowSource(f.width, rect, i);
    assert Blit(f, rect, data).pixels[i] == 1;
    assert Expected(f, rect, data, i) == 0;
  }

  // ----- A shadow texture kept by damage alone -------------------------------

  datatype Texture = Texture(width: nat, height: nat, pixels: seq<byte>)

  predicate TextureOk(t: Texture) {
    |t.pixels| == t.width * t.height * 4
  }

  /** The byte a texture shows once it has the size of the frame: a texture of another size starts black. */
  function Shown(t: Texture, f: Frame, i: nat): byte
    requires TextureOk(t) && Valid(f) && i < |f.pixels|
  {
    if t.width == f.width && t.height == f.height then t.pixels[i] else 0
  }

  predicate Damaged(f: Frame, i: nat)
    requires Valid(f)
  {
    f.damage != [] && f.damage[0].Covers(Column(f.width, i), RowOf(f.width, i))
  }

  /** The consumer: adopts the frame's size and copies the taken rectangle, nothing else. */
  function Upload(t: Texture, f: Frame): (r: Texture)
    requires TextureOk(t) && Valid(f)
    ensures TextureOk(r)
  {
    Texture(f.width, f.height, seq(|f.pixels|, i requires 0 <= i < |f.pixels| =>
      if Damaged(f, i) then f.pixels[i] else Shown(t, f, i)))
  }

  datatype Op =
    | BlitOp(rect: Rect, data: seq<byte>)
    | FillOp(rect: Rect, bgra: Bgra)
    | ResizeOp(width: nat, height: nat)
    | MarkOp(rect: Rect)
    | PresentOp

  /** Sizes and edges stay within u32. */
  predicate InRange(op: Op) {
    match op
    case ResizeOp(w, h) => Sized(Max(w, 1), Max(h, 1))
    case MarkOp(rect) => rect.Fits()
    case _ => true
  }

  datatype Pair = Pair(texture: Texture, frame: Frame)

  predicate PairOk(p: Pair) {
    TextureOk(p.texture) && Valid(p.frame)
  }

  function Present(p: Pair): (r: Pair)
    requires PairOk(p)
    ensures PairOk(r)
  {
    Pair(Upload(p.texture, p.frame), p.frame.(damage := []))
  }

  function Do(p: Pair, op: Op): (r: Pair)
    requires PairOk(p) && InRange(op)
    ensures PairOk(r)
  {
    match op
    case BlitOp(rect, data) => p.(frame := Blit(p.frame, rect, data))
    case FillOp(rect, bgra) => p.(frame := Fill(p.frame, rect, bgra))
    case ResizeOp(w, h) => p.(frame := Resize(p.frame, w, h))
    case MarkOp(rect) => p.(frame := MarkDirty(p.frame, rect))
    case PresentOp => Present(p)
  }

  function DoAll(p: Pair, ops: seq<Op>): (r: Pair)
    requires PairOk(p) && forall k :: 0 <= k < |ops| ==> InRange(ops[k])
    ensures PairOk(r)
    decreases |ops|
  {
    if ops == [] then p else DoAll(Do(p, ops[0]), ops[1..])
  }

  ghost predicate Exact(p: Pair) {
    p.texture == Texture(p.frame.width, p.frame.height, p.frame.pixels)
  }

  /** What is not damaged is already shown. */
  ghost predicate Synced(p: Pair)
    requires PairOk(p)
  {
    forall i :: 0 <= i < |p.frame.pixels| && !Damaged(p.frame, i) ==> Shown(p.texture, p.frame, i) == p.frame.pixels[i]
  }

  /** Uploading the damage makes the texture exact precisely when what is not damaged is already shown. */
  lemma PresentIsExactIff(p: Pair)
    requires PairOk(p)
    ensures Exact(Present(p)) <==> Synced(p)
  {
    hide Damaged, Shown;
    if Exact(Present(p)) {
      forall i | 0 <= i < |p.frame.pixels| && !Damaged(p.frame, i)
        ensures Shown(p.texture, p.frame, i) == p.frame.pixels[i]
      {
        assert Present(p).texture.pixels[i] == p.frame.pixels[i];
      }
    }
  }

  /** A frame whose pixels changed only inside a rectangle that was then marked. */
  lemma MarkKeepsSync(p: Pair, pixels: seq<byte>, rect: Rect)
    requires PairOk(p) && Synced(p) && rect.Fits() && |pixels| == |p.frame.pixels|
    requires forall i :: 0 <= i < |pixels| && !rect.Covers(Column(p.frame.width, i), RowOf(p.frame.width, i)) ==>
               pixels[i] == p.frame.pixels[i]
    ensures Synced(p.(frame := MarkDirty(p.frame.(pixels := pixels), rect)))
  {
    hide Column, RowOf;
    var f := MarkDirty(p.frame.(pixels := pixels), rect);
    forall i | 0 <= i < |pixels| && !Damaged(f, i) ensures Shown(p.texture, f, i) == pixels[i] {
      var x, y := Column(f.width, i), RowOf(f.width, i);
      if p.frame.damage != [] {
        assert f.damage[0] == p.frame.damage[0].Union(rect);
      } else {
        assert f.damage[0] == rect;
      }
      assert !Damaged(p.frame, i);
      assert Shown(p.texture, f, i) == Shown(p.texture, p.frame, i);
    }
  }

  lemma ResizeKeepsSync(p: Pair, width: nat, height: nat)
    requires PairOk(p) && Synced(p) && Sized(Max(width, 1), Max(height, 1))
    ensures Synced(p.(frame := Resize(p.frame, width, height)))
  {
    hide Column, RowOf, Shown;
    var f := Resize(p.frame, width, height);
    if f != p.frame {
      forall i | 0 <= i < |f.pixels| ensures Damaged(f, i) {
        InFrame(f.width, f.height, i);
      }
    }
  }

  lemma PresentKeepsSync(p: Pair)
    requires PairOk(p) && Synced(p)
    ensures Synced(Present(p))
  {
    PresentIsExactIff(p);
  }

  lemma DoKeepsSync(p: Pair, op: Op)
    requires PairOk(p) && InRange(op) && Synced(p)
    ensures Synced(Do(p, op))
  {
    hide Synced, Column, RowOf, Damaged, Shown, Upload, Resize, Marked;
    var f := p.frame;
    match op
    case BlitOp(rect, data) =>
      var c := rect.Clamped(f.width, f.height);
      if !c.IsEmpty() && |data| >= c.width * c.height * 4 {
        ClampedFits(f, rect);
        MarkKeepsSync(p, Blitted(f.pixels, f.width, c, data), c);
      }
    case FillOp(rect, bgra) =>
      var c := rect.Clamped(f.width, f.height);
      ClampedFits(f, rect);
      MarkKeepsSync(p, Filled(f.pixels, f.width, c, bgra), c);
    case ResizeOp(w, h) => ResizeKeepsSync(p, w, h);
    case MarkOp(rect) =>
      assert f.(pixels := f.pixels) == f;
      MarkKeepsSync(p, f.pixels, rect);
    case PresentOp => PresentKeepsSync(p);
  }

  lemma {:induction false} RunsKeepSync(p: Pair, ops: seq<Op>)
    requires PairOk(p) && Synced(p) && forall k :: 0 <= k < |ops| ==> InRange(ops[k])
    ensures Synced(DoAll(p, ops))
    decreases |ops|
  {
    hide Synced, Do;
    if ops != [] {
      DoKeepsSync(p, ops[0]);
      RunsKeepSync(Do(p, ops[0]), ops[1..]);
    }
  }

  /** Damage completeness: a black texture that from the start copies only the rectangle it takes
      holds exactly the frame after every present, whatever was drawn, resized or marked between. */
  lemma DamageIsComplete(width: nat, height: nat, ops: seq<Op>)
    requires Sized(Max(width, 1), Max(height, 1)) && forall k :: 0 <= k < |ops| ==> InRange(ops[k])
    ensures var f := New(width, height);
            var start := Pair(Texture(f.width, f.height, f.pixels), f);
            PairOk(start) && Exact(Present(DoAll(start, ops)))
  {
    hide DoAll, Present;
    var f := New(width, height);
    var start := Pair(Texture(f.width, f.height, f.pixels), f);
    RunsKeepSync(start, ops);
    PresentIsExactIff(DoAll(start, ops));
  }
}
