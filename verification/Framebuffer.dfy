/** The BGRA framebuffer and its damage tracking: crates/rdt-rdp/src/framebuffer.rs. */
module Framebuffer {
  import opened Basics

  const U32_LIMIT: nat := 0x1_0000_0000

  datatype Rect = Rect(left: nat, top: nat, width: nat, height: nat) {
    predicate IsEmpty() {
      width == 0 || height == 0
    }

    /** The pixel (x, y) is covered. */
    predicate Covers(x: nat, y: nat) {
      left <= x < left + width && top <= y < top + height
    }

    /** No edge overflows u32. */
    predicate Fits() {
      left + width < U32_LIMIT && top + height < U32_LIMIT
    }

    function Clamped(w: nat, h: nat): Rect {
      var l, t := Min(left, SaturatingSub(w, 1)), Min(top, SaturatingSub(h, 1));
      Rect(l, t, Min(width, w - l), Min(height, h - t))
    }

    /** The bounding box of the two; an empty one does not count. */
    function Union(other: Rect): Rect {
      if IsEmpty() then other
      else if other.IsEmpty() then this
      else
        var l, t := Min(left, other.left), Min(top, other.top);
        var right := Max(left + width, other.left + other.width);
        var bottom := Max(top + height, other.top + other.height);
        Rect(l, t, right - l, bottom - t)
    }
  }

  // ----- Pixels --------------------------------------------------------------

  /** Where byte c of pixel (x, y) is, in rows of w pixels of four bytes. */
  function At(w: nat, x: nat, y: nat, c: nat): nat {
    (y * w + x) * 4 + c
  }

  /** The column and the row of the pixel that byte i belongs to. */
  function Column(w: nat, i: nat): (x: nat)
    requires w > 0
    ensures x < w
  {
    i / 4 % w
  }

  function RowOf(w: nat, i: nat): nat
    requires w > 0
  {
    i / 4 / w
  }

  /** Byte addresses and coordinates are inverse to each other. */
  lemma AddressRoundTrip(w: nat, x: nat, y: nat, c: nat)
    requires x < w && c < 4
    ensures Column(w, At(w, x, y, c)) == x && RowOf(w, At(w, x, y, c)) == y && At(w, x, y, c) % 4 == c
  {
    DivMod(y, x, w);
  }

  lemma CoordinatesRoundTrip(w: nat, i: nat)
    requires w > 0
    ensures At(w, Column(w, i), RowOf(w, i), i % 4) == i
  {
    var p := i / 4;
    assert p == (p / w) * w + p % w;
  }

  /** The bytes of row y between two columns lie together. */
  lemma RowIsContiguous(w: nat, left: nat, width: nat, y: nat, i: nat)
    requires w > 0 && left + width <= w
    ensures At(w, left, y, 0) <= i < At(w, left, y, 0) + width * 4
       <==> RowOf(w, i) == y && left <= Column(w, i) < left + width
  {
    var x := Column(w, i);
    CoordinatesRoundTrip(w, i);
    if RowOf(w, i) == y {
      assert At(w, x, y, i % 4) == i;
    }
    if At(w, left, y, 0) <= i < At(w, left, y, 0) + width * 4 {
      var k := i / 4 - (y * w + left);
      DivMod(y, left + k, w);
      assert i / 4 == y * w + (left + k);
    }
  }

  lemma InFrame(w: nat, h: nat, i: nat)
    requires w > 0 && i < w * h * 4
    ensures RowOf(w, i) < h
  {
    CoordinatesRoundTrip(w, i);
    var y := RowOf(w, i);
    if y >= h {
      Monotone(h, y, w);
    }
  }

  lemma FrameHolds(w: nat, h: nat, x: nat, y: nat, c: nat)
    requires x < w && y < h && c < 4
    ensures At(w, x, y, c) < w * h * 4
  {
    NextRow(y, h, w);
  }

  // ----- What the operations make of the pixels ------------------------------

  /** Which byte of a bitmap of the given width lies over byte i. */
  function Source(w: nat, rect: Rect, stride: nat, i: nat): nat
    requires w > 0 && rect.Covers(Column(w, i), RowOf(w, i))
  {
    At(stride, Column(w, i) - rect.left, RowOf(w, i) - rect.top, i % 4)
  }

  lemma SourceInBitmap(w: nat, rect: Rect, i: nat)
    requires w > 0 && rect.Covers(Column(w, i), RowOf(w, i))
    ensures Source(w, rect, rect.width, i) < rect.width * rect.height * 4
  {
    FrameHolds(rect.width, rect.height, Column(w, i) - rect.left, RowOf(w, i) - rect.top, i % 4);
  }

  /** The pixels with a bitmap laid over a rectangle. */
  function Blitted(pixels: seq<byte>, w: nat, rect: Rect, data: seq<byte>): (r: seq<byte>)
    requires w > 0 && |data| >= rect.width * rect.height * 4
    ensures |r| == |pixels|
    ensures forall i :: 0 <= i < |pixels| ==>
              r[i] == if rect.Covers(Column(w, i), RowOf(w, i))
                      then (SourceInBitmap(w, rect, i); data[Source(w, rect, rect.width, i)]) else pixels[i]
  {
    seq(|pixels|, i requires 0 <= i < |pixels| =>
      if rect.Covers(Column(w, i), RowOf(w, i))
      then (SourceInBitmap(w, rect, i); data[Source(w, rect, rect.width, i)]) else pixels[i])
  }

  type Bgra = c: seq<byte> | |c| == 4 witness [0, 0, 0, 0]

  /** The pixels with a rectangle in one colour. */
  function Filled(pixels: seq<byte>, w: nat, rect: Rect, bgra: Bgra): (r: seq<byte>)
    requires w > 0
    ensures |r| == |pixels|
    ensures forall i :: 0 <= i < |pixels| ==>
              r[i] == if rect.Covers(Column(w, i), RowOf(w, i)) then bgra[i % 4] else pixels[i]
  {
    seq(|pixels|, i requires 0 <= i < |pixels| =>
      if rect.Covers(Column(w, i), RowOf(w, i)) then bgra[i % 4] else pixels[i])
  }

  /** The pixels in a frame of another size: what overlaps stays, the rest is black. */
  function Resized(pixels: seq<byte>, w: nat, h: nat, w': nat, h': nat): (r: seq<byte>)
    requires w > 0 && w' > 0 && |pixels| == w * h * 4
    ensures |r| == w' * h' * 4
    ensures forall i :: 0 <= i < |r| ==> r[i] == Carried(pixels, w, h, w', i)
  {
    seq(w' * h' * 4, i requires 0 <= i < w' * h' * 4 => Carried(pixels, w, h, w', i))
  }

  function Carried(pixels: seq<byte>, w: nat, h: nat, w': nat, i: nat): byte
    requires w > 0 && w' > 0 && |pixels| == w * h * 4
  {
    var x, y := Column(w', i), RowOf(w', i);
    if x < w && y < h then (FrameHolds(w, h, x, y, i % 4); pixels[At(w, x, y, i % 4)]) else 0
  }

  /** At most one rectangle is pending: the bounding box of the damage. */
  function Marked(damage: seq<Rect>, rect: Rect): seq<Rect> {
    if damage == [] then [rect]
    else damage[..|damage| - 1] + [damage[|damage| - 1].Union(rect)]
  }

  datatype Frame = Frame(width: nat, height: nat, pixels: seq<byte>, damage: seq<Rect>)

  predicate Sized(width: nat, height: nat) {
    1 <= width && 1 <= height && width * height * 4 < U32_LIMIT && width < U32_LIMIT && height < U32_LIMIT
  }

  predicate Valid(f: Frame) {
    && Sized(f.width, f.height)
    && |f.pixels| == f.width * f.height * 4
    && |f.damage| <= 1
    && (f.damage != [] ==> f.damage[0].Fits())
  }

  function New(width: nat, height: nat): (f: Frame)
    requires Sized(Max(width, 1), Max(height, 1))
    ensures Valid(f)
  {
    var w, h := Max(width, 1), Max(height, 1);
    Frame(w, h, Repeat(w * h * 4, 0), [])
  }

  function Resize(f: Frame, width: nat, height: nat): (r: Frame)
    requires Valid(f) && Sized(Max(width, 1), Max(height, 1))
    ensures Valid(r)
  {
    var w, h := Max(width, 1), Max(height, 1);
    if w == f.width && h == f.height then f
    else Frame(w, h, Resized(f.pixels, f.width, f.height, w, h), [Rect(0, 0, w, h)])
  }

  function MarkDirty(f: Frame, rect: Rect): (r: Frame)
    requires Valid(f) && rect.Fits()
    ensures Valid(r)
  {
    f.(damage := Marked(f.damage, rect))
  }

  lemma ClampedFits(f: Frame, rect: Rect)
    requires Valid(f)
    ensures var c := rect.Clamped(f.width, f.height);
            c.Fits() && c.left + c.width <= f.width && c.top + c.height <= f.height
  {
  }

  function Blit(f: Frame, rect: Rect, data: seq<byte>): (r: Frame)
    requires Valid(f)
    ensures Valid(r)
  {
    var c := rect.Clamped(f.width, f.height);
    ClampedFits(f, rect);
    if c.IsEmpty() || |data| < c.width * c.height * 4 then f
    else MarkDirty(f.(pixels := Blitted(f.pixels, f.width, c, data)), c)
  }

  function Fill(f: Frame, rect: Rect, bgra: Bgra): (r: Frame)
    requires Valid(f)
    ensures Valid(r)
  {
    var c := rect.Clamped(f.width, f.height);
    ClampedFits(f, rect);
    MarkDirty(f.(pixels := Filled(f.pixels, f.width, c, bgra)), c)
  }

  // ----- The object ----------------------------------------------------------

  class Framebuffer {
    var width: nat
    var height: nat
    var pixels: array<byte>
    var damage: seq<Rect>

    ghost function View(): Frame
      reads this, pixels
    {
      Frame(width, height, pixels[..], damage)
    }

    constructor (width: nat, height: nat)
      requires Sized(Max(width, 1), Max(height, 1))
      ensures Valid(View()) && View() == New(width, height) && fresh(pixels)
    {
      var w, h := Max(width, 1), Max(height, 1);
      var black := Zeroed(w * h * 4);
      this.width, this.height, pixels, damage := w, h, black, [];
      new;
    }

    method ResizeTo(width: nat, height: nat)
      requires Valid(View()) && Sized(Max(width, 1), Max(height, 1))
      modifies this
      ensures Valid(View()) && View() == Resize(old(View()), width, height)
      ensures pixels == old(pixels) || fresh(pixels)
    {
      var w, h := Max(width, 1), Max(height, 1);
      if w == this.width && h == this.height {
        return;
      }
      var next := CopyOverlap(w, h);
      this.width, this.height, pixels := w, h, next;
      damage := [];
      damage := Marked(damage, Rect(0, 0, w, h));
    }

    /** The row loop of resize. */
    method CopyOverlap(w: nat, h: nat) returns (next: array<byte>)
      requires Valid(View()) && Sized(w, h)
      ensures fresh(next) && next[..] == Resized(pixels[..], this.width, this.height, w, h)
    {
      hide CarriedRows, Resized, At, Column, RowOf;
      next := Zeroed(w * h * 4);
      var rows := Min(h, this.height);
      NoRowsCarried(next[..], pixels[..], this.width, this.height, w);
      for row := 0 to rows
        invariant CarriedRows(next[..], pixels[..], this.width, this.height, w, row)
      {
        CopyRow(next, w, h, row);
      }
      AllRowsCarried(next[..], pixels[..], this.width, this.height, w, h);
    }

    /** One row of it. */
    method CopyRow(next: array<byte>, w: nat, h: nat, row: nat)
      requires Valid(View()) && next != pixels && 0 < w && next.Length == w * h * 4
      requires row < h && row < this.height && CarriedRows(next[..], pixels[..], this.width, this.height, w, row)
      modifies next
      ensures CarriedRows(next[..], pixels[..], this.width, this.height, w, row + 1)
    {
      hide CarriedRows, At, Column, RowOf, IsCopied;
      var target, source, rowBytes := row * (w * 4), row * (this.width * 4), Min(w, this.width) * 4;
      RowFits(w, h, row, Min(w, this.width));
      RowFits(this.width, this.height, row, Min(w, this.width));
      ghost var before := next[..];
      CopySlice(next, target, pixels[..], source, rowBytes);
      CarryRow(before, next[..], pixels[..], this.width, this.height, w, h, row);
    }

    method BlitBitmap(rect: Rect, data: seq<byte>)
      requires Valid(View())
      modifies this`damage, pixels
      ensures Valid(View()) && View() == Blit(old(View()), rect, data)
    {
      var c := rect.Clamped(width, height);
      ClampedFits(View(), rect);
      if c.IsEmpty() {
        return;
      }
      if |data| < c.width * c.height * 4 {
        return;
      }
      CopyRows(c, data);
      damage := Marked(damage, c);
    }

    /** The row loop of blit. */
    method CopyRows(rect: Rect, data: seq<byte>)
      requires Valid(View()) && rect.left + rect.width <= width && rect.top + rect.height <= height
      requires |data| >= rect.width * rect.height * 4
      modifies pixels
      ensures pixels[..] == Blitted(old(pixels[..]), width, rect, data)
    {
      hide Blitted, At, Column, RowOf, IsCopied;
      ghost var was := pixels[..];
      NoRows(was, width, rect, data);
      for row := 0 to rect.height
        invariant |data| >= rect.width * row * 4
        invariant pixels[..] == Blitted(was, width, rect.(height := row), data)
      {
        var target := ((rect.top + row) * width + rect.left) * 4;
        var source := (row * rect.width) * 4;
        BlitRowFits(width, height, rect, row);
        ghost var before := pixels[..];
        CopySlice(pixels, target, data, source, rect.width * 4);
        BlitRow(was, before, pixels[..], width, rect, row, data);
      }
    }

    method FillRect(rect: Rect, bgra: Bgra)
      requires Valid(View())
      modifies this`damage, pixels
      ensures Valid(View()) && View() == Fill(old(View()), rect, bgra)
    {
      var c := rect.Clamped(width, height);
      ClampedFits(View(), rect);
      FillRows(c, bgra);
      damage := Marked(damage, c);
    }

    /** The row and column loops of fill. */
    method FillRows(rect: Rect, bgra: Bgra)
      requires Valid(View()) && rect.left + rect.width <= width && rect.top + rect.height <= height
      modifies pixels
      ensures pixels[..] == Filled(old(pixels[..]), width, rect, bgra)
    {
      hide Filled, At, Column, RowOf;
      ghost var was := pixels[..];
      NothingFilled(was, width, rect.(height := 0), bgra);
      for row := 0 to rect.height
        invariant pixels[..] == Filled(was, width, rect.(height := row), bgra)
      {
        FillRow(rect, row, bgra);
        FillLine(was, width, rect, row, bgra);
      }
    }

    /** The column loop. */
    method FillRow(rect: Rect, row: nat, bgra: Bgra)
      requires Valid(View()) && rect.left + rect.width <= width && rect.top + rect.height <= height && row < rect.height
      modifies pixels
      ensures pixels[..] == Filled(old(pixels[..]), width, Rect(rect.left, rect.top + row, rect.width, 1), bgra)
    {
      hide Filled, At, Column, RowOf;
      var start := ((rect.top + row) * width + rect.left) * 4;
      var line := Rect(rect.left, rect.top + row, rect.width, 1);
      ghost var before := pixels[..];
      BlitRowFits(width, height, rect, row);
      NothingFilled(before, width, line.(width := 0), bgra);
      for column := 0 to rect.width
        invariant pixels[..] == Filled(before, width, line.(width := column), bgra)
      {
        FillAt(start + column * 4, bgra);
        FillPixel(before, Filled(before, width, line.(width := column), bgra), pixels[..], width, line, column, bgra);
      }
    }

    /** `pixels[at..at + 4].copy_from_slice(&bgra)` */
    method FillAt(at: nat, bgra: Bgra)
      requires at + 4 <= pixels.Length
      modifies pixels
      ensures forall i :: 0 <= i < pixels.Length ==> pixels[i] == if at <= i < at + 4 then bgra[i - at] else old(pixels[i])
    {
      pixels[at], pixels[at + 1], pixels[at + 2], pixels[at + 3] := bgra[0], bgra[1], bgra[2], bgra[3];
    }

    method MarkRect(rect: Rect)
      requires Valid(View()) && rect.Fits()
      modifies this`damage
      ensures Valid(View()) && View() == MarkDirty(old(View()), rect)
    {
      if damage != [] {
        var last := |damage| - 1;
        damage := damage[last := damage[last].Union(rect)];
        assert damage == Marked(old(damage), rect);
      } else {
        damage := damage + [rect];
      }
    }

    /** Takes the accumulated damage, clearing it. */
    method TakeDamage() returns (taken: seq<Rect>)
      requires Valid(View())
      modifies this`damage
      ensures Valid(View()) && View() == old(View()).(damage := []) && taken == old(damage) && |taken| <= 1
    {
      taken := damage;
      damage := [];
    }
  }

  /** `vec![0u8; n]` */
  method Zeroed(n: nat) returns (a: array<byte>)
    ensures fresh(a) && a.Length == n && a[..] == Repeat(n, 0)
  {
    a := new byte[n](_ => 0);
    assert a[..] == Repeat(n, 0);
  }

  /** `to[target..target + n].copy_from_slice(&from[source..source + n])` */
  method CopySlice(to: array<byte>, target: nat, from: seq<byte>, source: nat, n: nat)
    requires target + n <= to.Length && source + n <= |from|
    modifies to
    ensures IsCopied(old(to[..]), to[..], target, from, source, n)
  {
    forall j | 0 <= j < n {
      to[target + j] := from[source + j];
    }
  }

  ghost predicate IsCopied(before: seq<byte>, after: seq<byte>, target: nat, from: seq<byte>, source: nat, n: nat)
    requires source + n <= |from|
  {
    && |after| == |before|
    && forall i :: 0 <= i < |after| ==>
         after[i] == if target <= i < target + n then from[source + (i - target)] else before[i]
  }

  // ----- Row steps -----------------------------------------------------------

  lemma RowFits(w: nat, h: nat, row: nat, width: nat)
    requires row < h && width <= w
    ensures row * (w * 4) + width * 4 <= w * h * 4
    ensures row * (w * 4) == At(w, 0, row, 0)
  {
    NextRow(row, h, w);
    assert row * (w * 4) == row * w * 4;
  }

  lemma CarriedRow(pixels: seq<byte>, w: nat, h: nat, w': nat, h': nat, row: nat, i: nat)
    requires w > 0 && w' > 0 && |pixels| == w * h * 4 && row < h && row < h' && i < w' * h' * 4
    ensures var target, n := row * (w' * 4), Min(w, w') * 4;
            && (target <= i < target + n ==> RowOf(w', i) == row && row * (w * 4) + (i - target) < |pixels|
                                             && Carried(pixels, w, h, w', i) == pixels[row * (w * 4) + (i - target)])
            && (!(target <= i < target + n) && RowOf(w', i) == row ==> Carried(pixels, w, h, w', i) == 0)
  {
    var n := Min(w, w');
    RowFits(w', h', row, n);
    RowFits(w, h, row, n);
    RowIsContiguous(w', 0, n, row, i);
    CoordinatesRoundTrip(w', i);
    if RowOf(w', i) == row {
      var x := Column(w', i);
      assert i == At(w', x, row, i % 4);
      assert At(w, x, row, i % 4) == row * (w * 4) + (i - row * (w' * 4));
    }
  }

  /** The first rows hold what is carried over, the rest is black. */
  ghost predicate CarriedRows(next: seq<byte>, pixels: seq<byte>, w: nat, h: nat, w': nat, rows: nat)
    requires w > 0 && w' > 0 && |pixels| == w * h * 4
  {
    forall i :: 0 <= i < |next| ==> next[i] == if RowOf(w', i) < rows then Carried(pixels, w, h, w', i) else 0
  }

  lemma NoRowsCarried(next: seq<byte>, pixels: seq<byte>, w: nat, h: nat, w': nat)
    requires w > 0 && w' > 0 && |pixels| == w * h * 4 && forall i :: 0 <= i < |next| ==> next[i] == 0
    ensures CarriedRows(next, pixels, w, h, w', 0)
  {
  }

  lemma CarryRow(before: seq<byte>, after: seq<byte>, pixels: seq<byte>, w: nat, h: nat, w': nat, h': nat, row: nat)
    requires w > 0 && w' > 0 && |pixels| == w * h * 4 && row < h && row < h'
    requires |before| == |after| == w' * h' * 4 && CarriedRows(before, pixels, w, h, w', row)
    requires row * (w * 4) + Min(w, w') * 4 <= |pixels|
    requires IsCopied(before, after, row * (w' * 4), pixels, row * (w * 4), Min(w, w') * 4)
    ensures CarriedRows(after, pixels, w, h, w', row + 1)
  {
    hide Carried, RowOf;
    forall i | 0 <= i < |after|
      ensures after[i] == if RowOf(w', i) < row + 1 then Carried(pixels, w, h, w', i) else 0
    {
      CarriedRow(pixels, w, h, w', h', row, i);
    }
  }

  lemma AllRowsCarried(next: seq<byte>, pixels: seq<byte>, w: nat, h: nat, w': nat, h': nat)
    requires w > 0 && w' > 0 && |pixels| == w * h * 4 && |next| == w' * h' * 4
    requires CarriedRows(next, pixels, w, h, w', Min(h, h'))
    ensures next == Resized(pixels, w, h, w', h')
  {
    hide RowOf;
    forall i | 0 <= i < |next| ensures next[i] == Carried(pixels, w, h, w', i) {
      InFrame(w', h', i);
    }
  }

  lemma BlitRowFits(w: nat, h: nat, rect: Rect, row: nat)
    requires rect.left + rect.width <= w && rect.top + rect.height <= h && row < rect.height
    ensures ((rect.top + row) * w + rect.left) * 4 + rect.width * 4 <= w * h * 4
    ensures (row * rect.width) * 4 + rect.width * 4 <= rect.width * rect.height * 4
    ensures rect.width * (row + 1) * 4 <= rect.width * rect.height * 4
  {
    NextRow(rect.top + row, h, w);
    NextRow(row, rect.height, rect.width);
  }

  lemma NextRow(y: nat, h: nat, w: nat)
    requires y < h
    ensures y * w + w <= h * w && h * w == w * h && w * (y + 1) == y * w + w
  {
    Monotone(y + 1, h, w);
    assert (y + 1) * w == y * w + w;
  }

  lemma NoRows(pixels: seq<byte>, w: nat, rect: Rect, data: seq<byte>)
    requires w > 0
    ensures Blitted(pixels, w, rect.(height := 0), data) == pixels
  {
  }

  /** One more row copied is a bitmap of one more row. */
  lemma BlitRow(was: seq<byte>, before: seq<byte>, after: seq<byte>, w: nat, rect: Rect, row: nat, data: seq<byte>)
    requires w > 0 && rect.left + rect.width <= w && |data| >= rect.width * (row + 1) * 4
    requires |data| >= rect.width * row * 4
    requires before == Blitted(was, w, rect.(height := row), data)
    requires (row * rect.width) * 4 + rect.width * 4 <= |data|
    requires IsCopied(before, after, ((rect.top + row) * w + rect.left) * 4, data, (row * rect.width) * 4, rect.width * 4)
    ensures after == Blitted(was, w, rect.(height := row + 1), data)
  {
    var taller, y := rect.(height := row + 1), rect.top + row;
    var target, source := (y * w + rect.left) * 4, (row * rect.width) * 4;
    forall i | 0 <= i < |after| ensures after[i] == Blitted(was, w, taller, data)[i] {
      RowIsContiguous(w, rect.left, rect.width, y, i);
      if target <= i < target + rect.width * 4 {
        CoordinatesRoundTrip(w, i);
        SourceInBitmap(w, taller, i);
        assert Source(w, taller, rect.width, i) == source + (i - target);
      } else if taller.Covers(Column(w, i), RowOf(w, i)) {
        SourceInBitmap(w, rect.(height := row), i);
        SourceInBitmap(w, taller, i);
      }
    }
  }

  lemma NothingFilled(pixels: seq<byte>, w: nat, rect: Rect, bgra: Bgra)
    requires w > 0 && rect.IsEmpty()
    ensures Filled(pixels, w, rect, bgra) == pixels
  {
  }

  lemma FillPixel(was: seq<byte>, before: seq<byte>, after: seq<byte>, w: nat, line: Rect, column: nat, bgra: Bgra)
    requires w > 0 && line.height == 1 && line.left + column < w
    requires before == Filled(was, w, line.(width := column), bgra) && |after| == |before|
    requires var at := (line.top * w + line.left) * 4 + column * 4;
             forall i :: 0 <= i < |after| ==> after[i] == if at <= i < at + 4 then bgra[i - at] else before[i]
    ensures after == Filled(was, w, line.(width := column + 1), bgra)
  {
    var wider := line.(width := column + 1);
    forall i | 0 <= i < |after| ensures after[i] == Filled(was, w, wider, bgra)[i] {
      RowIsContiguous(w, line.left + column, 1, line.top, i);
    }
  }

  lemma FillLine(was: seq<byte>, w: nat, rect: Rect, row: nat, bgra: Bgra)
    requires w > 0
    ensures Filled(Filled(was, w, rect.(height := row), bgra), w, Rect(rect.left, rect.top + row, rect.width, 1), bgra)
         == Filled(was, w, rect.(height := row + 1), bgra)
  {
  }
}
