/**
 Presenting a draw buffer on a linear framebuffer, whole or only a rectangle of it. Depths other than 16,
 24 and 32 bits a pixel are never drawn.
 */
module Video {
  import opened Bytes

  datatype Screen = Screen(width: nat, height: nat, pitch: nat, bpp: nat) {
    function PixelBytes(): nat { bpp / 8 }

    ghost predicate Valid() {
      width < 0x8000_0000 && height < 0x8000_0000 && width * PixelBytes() <= pitch
    }

    function Whole(): Rect { Rect(0, 0, width, height) }

    predicate Drawn() {
      bpp == 16 || bpp == 24 || bpp == 32
    }

    ghost predicate On(y: int, x: int) {
      0 <= y < height && 0 <= x < width
    }

    function Addr(y: nat, x: nat): nat {
      y * pitch + x * PixelBytes()
    }
  }

  /** x, y, width and height as a caller gives them, negative ones included. */
  datatype Rect = Rect(x: int, y: int, w: int, h: int) {
    /** Its edges are 32-bit signed integers. */
    ghost predicate Representable() {
      && -0x8000_0000 <= x < 0x8000_0000 && -0x8000_0000 <= x + w < 0x8000_0000
      && -0x8000_0000 <= y < 0x8000_0000 && -0x8000_0000 <= y + h < 0x8000_0000
    }

    predicate Has(py: int, px: int) {
      x <= px < x + w && y <= py < y + h
    }
  }

  const NOWHERE := Rect(0, 0, 0, 0)

  predicate Either(a: Rect, b: Rect, y: int, x: int) {
    a.Has(y, x) || b.Has(y, x)
  }

  /** The bytes a colour is stored as. */
  function Encode(bpp: nat, rgb: nat): (r: seq<byte>)
    requires bpp == 16 || bpp == 24 || bpp == 32
    ensures |r| == bpp / 8
  {
    var b0, b1, b2, b3 := rgb % 0x100, rgb / 0x100 % 0x100, rgb / 0x1_0000 % 0x100, rgb / 0x100_0000 % 0x100;
    if bpp == 32 then [b0, b1, b2, b3]
    else if bpp == 24 then [b0, b1, b2]
    else
      var packed := b2 / 8 * 0x800 + b1 / 4 * 0x20 + b0 / 8;
      [packed % 0x100, packed / 0x100 % 0x100]
  }

  /** Blue first, then green, red and the unused byte; at 16 bits five, six and five bits, blue lowest. */
  lemma EncodedColour(rest: nat, red: nat, green: nat, blue: nat)
    requires rest < 0x100 && red < 0x100 && green < 0x100 && blue < 0x100
    ensures var rgb := rest * 0x100_0000 + red * 0x1_0000 + green * 0x100 + blue;
      && Encode(32, rgb) == [blue, green, red, rest] && Encode(24, rgb) == [blue, green, red]
      && var word := Le16(Encode(16, rgb), 0);
      word / 0x800 == red / 8 && word / 0x20 % 0x40 == green / 4 && word % 0x20 == blue / 8
  {
    var rgb := rest * 0x100_0000 + red * 0x1_0000 + green * 0x100 + blue;
    LowByte(rest * 0x1_0000 + red * 0x100 + green, blue);
    LowByte(rest * 0x100 + red, green);
    LowByte(rest, red);
    Shifts(rgb);
    Packed(red / 8, green / 4, blue / 8);
    hide Le16;
  }

  lemma Shifts(v: nat)
    ensures v / 0x1_0000 == v / 0x100 / 0x100 && v / 0x100_0000 == v / 0x100 / 0x100 / 0x100
  {
  }

  lemma LowByte(high: nat, low: nat)
    requires low < 0x100
    ensures (high * 0x100 + low) % 0x100 == low && (high * 0x100 + low) / 0x100 == high
  {
  }

  lemma Packed(r: nat, g: nat, b: nat)
    requires r < 0x20 && g < 0x40 && b < 0x20
    ensures var w := r * 0x800 + g * 0x20 + b;
      Le16([w % 0x100, w / 0x100 % 0x100], 0) == w && w / 0x800 == r && w / 0x20 % 0x40 == g && w % 0x20 == b
  {
    var w := r * 0x800 + g * 0x20 + b;
    assert w < 0x1_0000 && w / 0x20 == r * 0x40 + g;
  }

  // ----------------------------------------------------------------- where pixels lie

  lemma Mul(a: nat, b: nat, c: nat)
    requires a < b
    ensures a * c + c <= b * c
  {
    MulNext(a, c);
    MulMono(a + 1, b, c);
  }

  lemma PixelInside(s: Screen, y: nat, x: nat)
    requires s.Valid() && s.On(y, x)
    ensures s.Addr(y, x) + s.PixelBytes() <= s.height * s.pitch
    ensures y * s.width + x < s.width * s.height
  {
    Mul(x, s.width, s.PixelBytes());
    Mul(y, s.height, s.pitch);
    Mul(y, s.height, s.width);
  }

  lemma PixelsApart(s: Screen, y: nat, x: nat, y': nat, x': nat)
    requires s.Valid() && s.On(y, x) && s.On(y', x') && (y < y' || (y == y' && x < x'))
    ensures s.Addr(y, x) + s.PixelBytes() <= s.Addr(y', x')
  {
    if y < y' {
      Mul(x, s.width, s.PixelBytes());
      Mul(y, y', s.pitch);
    } else {
      Mul(x, x', s.PixelBytes());
    }
  }

  ghost function Pixel(s: Screen, fb: seq<byte>, y: nat, x: nat): seq<byte>
    requires s.Valid() && s.On(y, x) && s.height * s.pitch <= |fb|
  {
    PixelInside(s, y, x);
    fb[s.Addr(y, x)..s.Addr(y, x) + s.PixelBytes()]
  }

  ghost predicate InPixel(s: Screen, y: nat, x: nat, j: nat) {
    s.On(y, x) && s.Addr(y, x) <= j < s.Addr(y, x) + s.PixelBytes()
  }

  ghost predicate IsPadding(s: Screen, j: nat) {
    forall y: nat, x: nat :: !InPixel(s, y, x, j)
  }

  function ColourAt(s: Screen, buf: seq<nat>, y: nat, x: nat): nat
    requires s.Valid() && s.On(y, x) && |buf| == s.width * s.height
  {
    PixelInside(s, y, x);
    buf[y * s.width + x]
  }

  /** `now` is `was` with exactly the pixels in two rectangles showing the buffer's colours; padding untouched. */
  ghost predicate Painted(s: Screen, was: seq<byte>, now: seq<byte>, buf: seq<nat>, a: Rect, b: Rect)
    requires s.Valid() && s.height * s.pitch <= |was| == |now| && |buf| == s.width * s.height
  {
    && (forall y: nat, x: nat :: s.On(y, x) ==>
          Pixel(s, now, y, x) == if s.Drawn() && Either(a, b, y, x) then Encode(s.bpp, ColourAt(s, buf, y, x))
                                 else Pixel(s, was, y, x))
    && (forall j: nat :: j < |was| && IsPadding(s, j) ==> now[j] == was[j])
  }

  /**
   What painting does to the bytes of a pixel: row y starts at y times the pitch, and the colour is the
   buffer's y-th row's x-th; outside the rectangles, and at other depths, they stay.
   */
  lemma PaintedBytes(s: Screen, was: seq<byte>, now: seq<byte>, buf: seq<nat>, a: Rect, y: nat, x: nat, at: nat)
    requires s.Valid() && s.height * s.pitch <= |was| == |now| && |buf| == s.width * s.height
    requires Painted(s, was, now, buf, a, NOWHERE) && y < s.height && x < s.width
    requires at == y * s.pitch + x * (s.bpp / 8)
    ensures at + s.bpp / 8 <= |now| && y * s.width + x < |buf|
    ensures now[at..at + s.bpp / 8]
         == if (s.bpp == 16 || s.bpp == 24 || s.bpp == 32) && a.x <= x < a.x + a.w && a.y <= y < a.y + a.h
            then Encode(s.bpp, buf[y * s.width + x]) else was[at..at + s.bpp / 8]
  {
    hide Encode;
    PixelInside(s, y, x);
    assert Pixel(s, now, y, x) == now[s.Addr(y, x)..s.Addr(y, x) + s.PixelBytes()];
  }

  /** Every pixel shows the buffer's colour. */
  ghost predicate Shows(s: Screen, fb: seq<byte>, buf: seq<nat>)
    requires s.Valid() && s.Drawn() && s.height * s.pitch <= |fb| && |buf| == s.width * s.height
  {
    forall y: nat, x: nat :: s.On(y, x) ==> Pixel(s, fb, y, x) == Encode(s.bpp, ColourAt(s, buf, y, x))
  }

  /** A framebuffer is determined by its pixels and its padding. */
  lemma SamePixels(s: Screen, a: seq<byte>, b: seq<byte>)
    requires s.Valid() && s.height * s.pitch <= |a| == |b|
    requires forall y: nat, x: nat :: s.On(y, x) ==> Pixel(s, a, y, x) == Pixel(s, b, y, x)
    requires forall j: nat :: j < |a| && IsPadding(s, j) ==> a[j] == b[j]
    ensures a == b
  {
    forall j | 0 <= j < |a|
      ensures a[j] == b[j]
    {
      if !IsPadding(s, j) {
        var y: nat, x: nat :| InPixel(s, y, x, j);
        PixelInside(s, y, x);
        var k := j - s.Addr(y, x);
        assert a[j] == Pixel(s, a, y, x)[k] && b[j] == Pixel(s, b, y, x)[k];
      }
    }
  }

  /**
   If the framebuffer shows the last buffer, and the new one differs from it only inside a rectangle,
   presenting that rectangle leaves the same bytes as presenting everything.
   */
  lemma PartialIsFull(s: Screen, fb: seq<byte>, full: seq<byte>, part: seq<byte>, last: seq<nat>, buf: seq<nat>,
                      r: Rect)
    requires s.Valid() && s.height * s.pitch <= |fb| == |full| == |part| && |buf| == |last| == s.width * s.height
    requires s.Drawn() ==> Shows(s, fb, last)
    requires forall y: nat, x: nat :: s.On(y, x) && !r.Has(y, x) ==> ColourAt(s, buf, y, x) == ColourAt(s, last, y, x)
    requires Painted(s, fb, full, buf, s.Whole(), NOWHERE)
    requires Painted(s, fb, part, buf, r, NOWHERE)
    ensures part == full && if s.Drawn() then Shows(s, part, buf) else part == fb
  {
    hide Encode, Pixel, ColourAt;
    SamePixels(s, part, full);
    if !s.Drawn() {
      SamePixels(s, part, fb);
    }
  }

  // ------------------------------------------------------------------------ the loops

  /** `now` is `was` with pixel (y, x) showing a colour. */
  ghost predicate Dotted(s: Screen, was: seq<byte>, now: seq<byte>, y: nat, x: nat, rgb: nat)
    requires s.Valid() && s.On(y, x) && s.height * s.pitch <= |was| == |now|
  {
    && Pixel(s, now, y, x) == (if s.Drawn() then Encode(s.bpp, rgb) else Pixel(s, was, y, x))
    && (forall y': nat, x': nat :: s.On(y', x') && (y', x') != (y, x) ==>
           Pixel(s, now, y', x') == Pixel(s, was, y', x'))
    && (forall j: nat :: j < |was| && IsPadding(s, j) ==> now[j] == was[j])
  }

  /** Writing one more pixel of a row paints one more. */
  lemma PaintedMore(s: Screen, was: seq<byte>, now: seq<byte>, now': seq<byte>, buf: seq<nat>, y: nat, x: nat, a: Rect,
                    x0: nat)
    requires s.Valid() && s.height * s.pitch <= |was| == |now| == |now'| && |buf| == s.width * s.height
    requires s.On(y, x) && x0 <= x
    requires Painted(s, was, now, buf, a, Rect(x0, y, x - x0, 1)) && Dotted(s, now, now', y, x, ColourAt(s, buf, y, x))
    ensures Painted(s, was, now', buf, a, Rect(x0, y, x - x0 + 1, 1))
  {
    hide Encode, Pixel, ColourAt, IsPadding;
  }

  /** A row done. */
  lemma PaintedRow(s: Screen, was: seq<byte>, now: seq<byte>, buf: seq<nat>, x0: int, y0: int, w: int, n: nat)
    requires s.Valid() && s.height * s.pitch <= |was| == |now| && |buf| == s.width * s.height
    requires Painted(s, was, now, buf, Rect(x0, y0, w, n), Rect(x0, y0 + n, w, 1))
    ensures Painted(s, was, now, buf, Rect(x0, y0, w, n + 1), Rect(x0, y0 + (n + 1), 0, 1))
  {
    SamePart(s, was, now, buf, Rect(x0, y0, w, n), Rect(x0, y0 + n, w, 1), Rect(x0, y0, w, n + 1),
             Rect(x0, y0 + (n + 1), 0, 1));
  }

  lemma SamePart(s: Screen, was: seq<byte>, now: seq<byte>, buf: seq<nat>, a: Rect, b: Rect, c: Rect, d: Rect)
    requires s.Valid() && s.height * s.pitch <= |was| == |now| && |buf| == s.width * s.height
    requires Painted(s, was, now, buf, a, b)
    requires forall y: nat, x: nat :: s.On(y, x) ==> Either(a, b, y, x) == Either(c, d, y, x)
    ensures Painted(s, was, now, buf, c, d)
  {
    hide Encode, Pixel, ColourAt, IsPadding;
  }

  lemma NothingPainted(s: Screen, was: seq<byte>, buf: seq<nat>, a: Rect, b: Rect)
    requires s.Valid() && s.height * s.pitch <= |was| && |buf| == s.width * s.height
    requires forall y: nat, x: nat :: s.On(y, x) ==> !Either(a, b, y, x)
    ensures Painted(s, was, was, buf, a, b)
  {
    hide Encode, Pixel, ColourAt, IsPadding;
  }

  /** The bytes of a pixel, once written, and no others. */
  lemma DottedBy(s: Screen, was: seq<byte>, now: seq<byte>, y: nat, x: nat, rgb: nat)
    requires s.Valid() && s.On(y, x) && s.height * s.pitch <= |was| == |now|
    requires Pixel(s, now, y, x) == if s.Drawn() then Encode(s.bpp, rgb) else Pixel(s, was, y, x)
    requires forall j :: 0 <= j < |was| && !(s.Addr(y, x) <= j < s.Addr(y, x) + s.PixelBytes()) ==> now[j] == was[j]
    ensures Dotted(s, was, now, y, x, rgb)
  {
    hide Encode, Screen.Addr;
    forall y': nat, x': nat | s.On(y', x') && (y', x') != (y, x)
      ensures Pixel(s, now, y', x') == Pixel(s, was, y', x')
    {
      PixelInside(s, y', x');
      if y < y' || (y == y' && x < x') {
        PixelsApart(s, y, x, y', x');
      } else {
        PixelsApart(s, y', x', y, x);
      }
    }
    forall j: nat | j < |was| && IsPadding(s, j)
      ensures now[j] == was[j]
    {
      assert !InPixel(s, y, x, j);
    }
  }

  method WritePixel(s: Screen, fb: array<byte>, y: nat, x: nat, rgb: nat)
    requires s.Valid() && s.On(y, x) && s.height * s.pitch <= fb.Length
    modifies fb
    ensures Dotted(s, old(fb[..]), fb[..], y, x, rgb)
  {
    hide Encode, Screen.Addr, Dotted;
    PixelInside(s, y, x);
    if s.Drawn() {
      var p, bytes := s.Addr(y, x), Encode(s.bpp, rgb);
      fb[p] := bytes[0];
      fb[p + 1] := bytes[1];
      if s.bpp != 16 {
        fb[p + 2] := bytes[2];
      }
      if s.bpp == 32 {
        fb[p + 3] := bytes[3];
      }
    }
    DottedBy(s, old(fb[..]), fb[..], y, x, rgb);
  }

  method Present(s: Screen, fb: array<byte>, buf: seq<nat>)
    requires s.Valid() && s.height * s.pitch <= fb.Length && |buf| == s.width * s.height
    modifies fb
    ensures Painted(s, old(fb[..]), fb[..], buf, s.Whole(), NOWHERE)
    ensures if s.Drawn() then Shows(s, fb[..], buf) else fb[..] == old(fb[..])
  {
    hide Encode, Pixel, ColourAt, IsPadding, Dotted, Painted;
    ghost var was := fb[..];
    var y := 0;
    NothingPainted(s, was, buf, Rect(0, 0, s.width, 0), Rect(0, 0, 0, 1));
    while y < s.height
      invariant 0 <= y <= s.height
      invariant Painted(s, was, fb[..], buf, Rect(0, 0, s.width, y), Rect(0, y, 0, 1))
    {
      var x := 0;
      while x < s.width
        invariant 0 <= x <= s.width
        invariant Painted(s, was, fb[..], buf, Rect(0, 0, s.width, y), Rect(0, y, x, 1))
      {
        ghost var now := fb[..];
        WritePixel(s, fb, y, x, ColourAt(s, buf, y, x));
        PaintedMore(s, was, now, fb[..], buf, y, x, Rect(0, 0, s.width, y), 0);
        x := x + 1;
      }
      PaintedRow(s, was, fb[..], buf, 0, 0, s.width, y);
      y := y + 1;
    }
    SamePart(s, was, fb[..], buf, Rect(0, 0, s.width, y), Rect(0, y, 0, 1), s.Whole(), NOWHERE);
    AllPainted(s, was, fb[..], buf);
  }

  /** Painting the whole screen shows the buffer, or, at a depth that is never drawn, changes nothing. */
  lemma AllPainted(s: Screen, was: seq<byte>, now: seq<byte>, buf: seq<nat>)
    requires s.Valid() && s.height * s.pitch <= |was| == |now| && |buf| == s.width * s.height
    requires Painted(s, was, now, buf, s.Whole(), NOWHERE)
    ensures if s.Drawn() then Shows(s, now, buf) else now == was
  {
    hide Encode, Pixel, ColourAt, IsPadding;
    if !s.Drawn() {
      SamePixels(s, now, was);
    }
  }

  method PresentRect(s: Screen, fb: array<byte>, buf: seq<nat>, r: Rect)
    requires r.Representable() && s.Valid() && s.height * s.pitch <= fb.Length && |buf| == s.width * s.height
    modifies fb
    ensures Painted(s, old(fb[..]), fb[..], buf, r, NOWHERE)
  {
    hide Encode, Pixel, ColourAt, IsPadding, Painted;
    ghost var was := fb[..];
    var rx, ry, rw, rh := r.x, r.y, r.w, r.h;
    if rx < 0 {
      rw := rw + rx;
      rx := 0;
    }
    if ry < 0 {
      rh := rh + ry;
      ry := 0;
    }
    if rx + rw > s.width {
      rw := s.width - rx;
    }
    if ry + rh > s.height {
      rh := s.height - ry;
    }
    if rw <= 0 || rh <= 0 {
      NothingPainted(s, was, buf, r, NOWHERE);
      return;
    }
    PresentClipped(s, fb, buf, rx, ry, rw, rh);
    SamePart(s, was, fb[..], buf, Rect(rx, ry, rw, rh), NOWHERE, r, NOWHERE);
  }

  /** The loops of vga_present_rect, once the rectangle is clipped to the screen. */
  method PresentClipped(s: Screen, fb: array<byte>, buf: seq<nat>, rx: nat, ry: nat, rw: nat, rh: nat)
    requires s.Valid() && s.height * s.pitch <= fb.Length && |buf| == s.width * s.height
    requires rx + rw <= s.width && ry + rh <= s.height
    modifies fb
    ensures Painted(s, old(fb[..]), fb[..], buf, Rect(rx, ry, rw, rh), NOWHERE)
  {
    hide Encode, Pixel, ColourAt, IsPadding, Dotted, Painted;
    ghost var was := fb[..];
    var y := 0;
    NothingPainted(s, was, buf, Rect(rx, ry, rw, 0), Rect(rx, ry + 0, 0, 1));
    while y < rh
      invariant 0 <= y <= rh
      invariant Painted(s, was, fb[..], buf, Rect(rx, ry, rw, y), Rect(rx, ry + y, 0, 1))
    {
      var x := 0;
      while x < rw
        invariant 0 <= x <= rw
        invariant Painted(s, was, fb[..], buf, Rect(rx, ry, rw, y), Rect(rx, ry + y, x, 1))
      {
        ghost var now := fb[..];
        WritePixel(s, fb, ry + y, rx + x, ColourAt(s, buf, ry + y, rx + x));
        PaintedMore(s, was, now, fb[..], buf, ry + y, rx + x, Rect(rx, ry, rw, y), rx);
        x := x + 1;
      }
      PaintedRow(s, was, fb[..], buf, rx, ry, rw, y);
      y := y + 1;
    }
    SamePart(s, was, fb[..], buf, Rect(rx, ry, rw, y), Rect(rx, ry + y, 0, 1), Rect(rx, ry, rw, rh), NOWHERE);
  }

  /** The whole of it as calls: a partial present after a full one. */
  method PresentTwice(s: Screen, fb: array<byte>, last: seq<nat>, buf: seq<nat>, r: Rect)
    requires r.Representable() && s.Valid() && s.height * s.pitch <= fb.Length && |buf| == |last| == s.width * s.height
    requires forall y: nat, x: nat :: s.On(y, x) && !r.Has(y, x) ==> ColourAt(s, buf, y, x) == ColourAt(s, last, y, x)
    modifies fb
    ensures Painted(s, old(fb[..]), fb[..], buf, s.Whole(), NOWHERE)
  {
    hide Encode, Pixel, ColourAt, IsPadding;
    Present(s, fb, last);
    PresentRect(s, fb, buf, r);
  }
}
