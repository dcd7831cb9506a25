/** The size of the published image: shrinking to fit, and the geometry of the message. */
module Downsample {
  import opened Sequences
  import Cdr

  /** Largest width and height; zero or less disables a limit. */
  datatype Limits = Limits(maxWidth: int, maxHeight: int)

  function Min(a: real, b: real): real
  {
    if b < a then b else a
  }

  function Max(a: int, b: int): int
  {
    if b > a then b else a
  }

  function Scale(l: Limits, width: nat, height: nat): real
    requires width > 0 && height > 0
  {
    var s := if l.maxWidth > 0 then Min(1.0, l.maxWidth as real / width as real) else 1.0;
    if l.maxHeight > 0 then Min(s, l.maxHeight as real / height as real) else s
  }

  /** One side at a scale: rounded down, but never to nothing. */
  function Pixels(n: nat, scale: real): int
  {
    Max(1, (n as real * scale).Floor)
  }

  /** The image at a scale, never enlarged and never empty. */
  function Resize(width: nat, height: nat, scale: real): (int, int)
  {
    if scale >= 1.0 then (width, height)
    else (Pixels(width, scale), Pixels(height, scale))
  }

  /** The size `_downsample` gives an image, in exact rationals. */
  function Fit(l: Limits, width: nat, height: nat): (int, int)
  {
    if l.maxWidth <= 0 && l.maxHeight <= 0 then (width, height)
    else if width == 0 || height == 0 then (width, height)
    else Resize(width, height, Scale(l, width, height))
  }

  method Shrink(l: Limits, width: nat, height: nat) returns (size: (int, int))
    ensures size == Fit(l, width, height)
  {
    if l.maxWidth <= 0 && l.maxHeight <= 0 {
      return (width, height);
    }
    if width == 0 || height == 0 {
      return (width, height);
    }
    var scale: real := 1.0;
    if l.maxWidth > 0 {
      scale := Min(scale, l.maxWidth as real / width as real);
    }
    if l.maxHeight > 0 {
      scale := Min(scale, l.maxHeight as real / height as real);
    }
    assert Fit(l, width, height) == Resize(width, height, scale);
    if scale >= 1.0 {
      return (width, height);
    }
    size := (Pixels(width, scale), Pixels(height, scale));
  }

  /** One side of the scaled image: within a pixel of exact, at least one, at most the old side and the limit. */
  lemma Side(n: nat, limit: int, scale: real)
    requires n > 0 && 0.0 < scale < 1.0
    requires limit > 0 ==> n as real * scale <= limit as real
    ensures var m := Pixels(n, scale);
            && 1 <= m <= n && (limit > 0 ==> m <= limit)
            && -1.0 < m as real - n as real * scale < 1.0
  {
    Scaled(n as real, scale, 1.0);
  }

  lemma Scaled(n: real, a: real, b: real)
    requires n > 0.0 && 0.0 < a <= b
    ensures 0.0 < n * a <= n * b
    ensures a < b ==> n * a < n * b
  {
    assert n * (b - a) >= 0.0;
  }

  lemma Quotient(m: real, n: real)
    requires n > 0.0
    ensures n * (m / n) == m
    ensures m > 0.0 ==> m / n > 0.0
  {
  }

  lemma RatioBelowOne(m: int, n: nat)
    requires n > 0
    ensures m as real / n as real < 1.0 <==> m < n
  {
    Quotient(m as real, n as real);
    Monotone(n as real, m as real / n as real, 1.0);
  }

  lemma Monotone(n: real, a: real, b: real)
    requires n > 0.0
    ensures n * a < n * b <==> a < b
  {
    var d := b - a;
    assert n * b == n * a + n * d;
    if d <= 0.0 {
      assert n * (-d) >= 0.0;
    }
  }

  lemma OneLimit(limit: int, n: nat, s: real)
    requires n > 0 && limit > 0 && 0.0 < s
    ensures var t := Min(s, limit as real / n as real);
            && 0.0 < t <= s && n as real * t <= limit as real
            && (t < 1.0 <==> s < 1.0 || limit < n)
  {
    var q := limit as real / n as real;
    Quotient(limit as real, n as real);
    RatioBelowOne(limit, n);
    Scaled(n as real, Min(s, q), q);
  }

  lemma ScaleBounds(l: Limits, width: nat, height: nat)
    requires width > 0 && height > 0
    ensures var s := Scale(l, width, height);
            && 0.0 < s <= 1.0
            && (l.maxWidth > 0 ==> width as real * s <= l.maxWidth as real)
            && (l.maxHeight > 0 ==> height as real * s <= l.maxHeight as real)
            && (s < 1.0 <==> (0 < l.maxWidth < width || 0 < l.maxHeight < height))
  {
    var s := 1.0;
    if l.maxWidth > 0 {
      OneLimit(l.maxWidth, width, s);
      s := Min(s, l.maxWidth as real / width as real);
    }
    if l.maxHeight > 0 {
      OneLimit(l.maxHeight, height, s);
      if l.maxWidth > 0 {
        Scaled(width as real, Min(s, l.maxHeight as real / height as real), s);
      }
    }
  }

  lemma ResizeBounds(l: Limits, width: nat, height: nat, s: real)
    requires width > 0 && height > 0 && 0.0 < s < 1.0
    requires l.maxWidth > 0 ==> width as real * s <= l.maxWidth as real
    requires l.maxHeight > 0 ==> height as real * s <= l.maxHeight as real
    ensures var (w, h) := Resize(width, height, s);
            && 1 <= w <= width && 1 <= h <= height
            && (l.maxWidth > 0 ==> w <= l.maxWidth) && (l.maxHeight > 0 ==> h <= l.maxHeight)
  {
    Side(width, l.maxWidth, s);
    Side(height, l.maxHeight, s);
  }

  lemma ResizeAspect(width: nat, height: nat, s: real)
    requires width > 0 && height > 0 && 0.0 < s < 1.0
    ensures var (w, h) := Resize(width, height, s);
            -(width + height) < w * height - h * width < width + height
  {
    Side(width, 0, s);
    Side(height, 0, s);
    var (w, h) := Resize(width, height, s);
    CrossErrorInt(w, h, width, height, s);
  }

  /** An image within every enabled limit is left alone; any other is made smaller. */
  lemma ShrinksExactly(l: Limits, width: nat, height: nat)
    requires width > 0 && height > 0
    ensures Fit(l, width, height) == (width, height) <==>
            (l.maxWidth <= 0 || width <= l.maxWidth) && (l.maxHeight <= 0 || height <= l.maxHeight)
  {
    FitBounds(l, width, height);
    ScaleBounds(l, width, height);
  }

  /** The result fits every enabled limit, is no larger than the source and no smaller than 1x1. */
  lemma FitBounds(l: Limits, width: nat, height: nat)
    requires width > 0 && height > 0
    ensures var (w, h) := Fit(l, width, height);
            && 1 <= w <= width && 1 <= h <= height
            && (l.maxWidth > 0 ==> w <= l.maxWidth) && (l.maxHeight > 0 ==> h <= l.maxHeight)
  {
    ScaleBounds(l, width, height);
    var s := Scale(l, width, height);
    if s < 1.0 {
      ResizeBounds(l, width, height, s);
    } else {
      assert Resize(width, height, s) == (width, height);
    }
  }

  /** The aspect ratio is kept to within a pixel on each side. */
  lemma AspectKept(l: Limits, width: nat, height: nat)
    requires width > 0 && height > 0
    ensures var (w, h) := Fit(l, width, height);
            -(width + height) < w * height - h * width < width + height
  {
    ScaleBounds(l, width, height);
    var s := Scale(l, width, height);
    if (l.maxWidth > 0 || l.maxHeight > 0) && s < 1.0 {
      ResizeAspect(width, height, s);
    } else {
      assert width * height == height * width;
    }
  }

  /** The scale is one, or it is what one of the enabled limits asks for. */
  lemma ScaleReached(l: Limits, width: nat, height: nat)
    requires width > 0 && height > 0
    ensures var s := Scale(l, width, height);
            || s == 1.0
            || (l.maxWidth > 0 && width as real * s == l.maxWidth as real)
            || (l.maxHeight > 0 && height as real * s == l.maxHeight as real)
  {
    if l.maxWidth > 0 {
      Quotient(l.maxWidth as real, width as real);
    }
    if l.maxHeight > 0 {
      Quotient(l.maxHeight as real, height as real);
    }
  }

  lemma PixelsReached(n: nat, limit: int, scale: real)
    requires limit > 0 && n as real * scale == limit as real
    ensures Pixels(n, scale) == limit
  {
  }

  /** An image is not made smaller than it has to be: one that is shrunk comes within a pixel of a limit. */
  lemma LimitNearlyReached(l: Limits, width: nat, height: nat)
    requires width > 0 && height > 0 && Fit(l, width, height) != (width, height)
    ensures var (w, h) := Fit(l, width, height);
            (l.maxWidth > 0 && w >= l.maxWidth - 1) || (l.maxHeight > 0 && h >= l.maxHeight - 1)
  {
    var s := Scale(l, width, height);
    ScaleReached(l, width, height);
    assert Fit(l, width, height) == (Pixels(width, s), Pixels(height, s));
    if l.maxWidth > 0 && width as real * s == l.maxWidth as real {
      PixelsReached(width, l.maxWidth, s);
    } else {
      assert s != 1.0;
      PixelsReached(height, l.maxHeight, s);
    }
  }

  // --- the size in whole numbers ---

  lemma CompareRatios(a: int, b: nat, c: int, d: nat)
    requires b > 0 && d > 0
    ensures a as real / b as real <= c as real / d as real <==> a * d <= c * b
  {
    var x, y := a as real / b as real, c as real / d as real;
    Quotient(a as real, b as real);
    Quotient(c as real, d as real);
    var n := b as real * d as real;
    assert n * x == (a * d) as real by {
      assert n * x == (b as real * x) * d as real;
    }
    assert n * y == (c * b) as real by {
      assert n * y == (d as real * y) * b as real;
    }
    assert n > 0.0;
    Monotone(n, y, x);
  }

  lemma FloorQuotient(n: nat, m: int, d: nat)
    requires d > 0
    ensures (n as real * (m as real / d as real)).Floor == n * m / d
  {
    var x, q := n as real * (m as real / d as real), n * m / d;
    Quotient(m as real, d as real);
    assert d as real * x == (n * m) as real by {
      assert d as real * x == n as real * (d as real * (m as real / d as real));
    }
    DivisionBounds(n * m, d);
    assert (d * q) as real == d as real * q as real;
    assert (d * (q + 1)) as real == d as real * (q + 1) as real;
    Monotone(d as real, x, q as real);
    Monotone(d as real, x, (q + 1) as real);
  }

  lemma DivisionBounds(a: int, d: nat)
    requires d > 0
    ensures d * (a / d) <= a < d * (a / d + 1)
  {
    assert a == d * (a / d) + a % d;
  }

  /** One side reaches its limit exactly, and the other is scaled along with it. */
  lemma PixelsExact(n: nat, limit: int, side: nat)
    requires side > 0 && limit > 0
    ensures Pixels(n, limit as real / side as real) == Max(1, n * limit / side)
    ensures Pixels(side, limit as real / side as real) == limit
  {
    FloorQuotient(n, limit, side);
    Quotient(limit as real, side as real);
    PixelsReached(side, limit, limit as real / side as real);
  }

  /** Which limit the scale comes from. */
  lemma ScaleExact(l: Limits, width: nat, height: nat)
    requires width > 0 && height > 0
    ensures Scale(l, width, height) ==
            if 0 < l.maxWidth < width && (l.maxHeight <= 0 || l.maxWidth * height <= l.maxHeight * width) then
              l.maxWidth as real / width as real
            else if 0 < l.maxHeight < height then l.maxHeight as real / height as real
            else 1.0
  {
    RatioBelowOne(l.maxWidth, width);
    RatioBelowOne(l.maxHeight, height);
    CompareRatios(l.maxWidth, width, l.maxHeight, height);
  }

  /**
    * The size, for every image and every pair of limits: the tighter limit is met exactly, the other side is
    * scaled by it and rounded down, but not to nothing; an image within the limits, or empty, is left alone.
    */
  lemma FitExact(l: Limits, width: nat, height: nat)
    ensures Fit(l, width, height) ==
            if width == 0 || height == 0 then (width, height)
            else if 0 < l.maxWidth < width && (l.maxHeight <= 0 || l.maxWidth * height <= l.maxHeight * width) then
              (l.maxWidth, if height * l.maxWidth < width then 1 else height * l.maxWidth / width)
            else if 0 < l.maxHeight < height then
              (if width * l.maxHeight < height then 1 else width * l.maxHeight / height, l.maxHeight)
            else (width, height)
  {
    if width > 0 && height > 0 && (l.maxWidth > 0 || l.maxHeight > 0) {
      ScaleExact(l, width, height);
      if 0 < l.maxWidth < width && (l.maxHeight <= 0 || l.maxWidth * height <= l.maxHeight * width) {
        RatioBelowOne(l.maxWidth, width);
        PixelsExact(height, l.maxWidth, width);
        AtLeastOne(height * l.maxWidth, width);
      } else if 0 < l.maxHeight < height {
        RatioBelowOne(l.maxHeight, height);
        PixelsExact(width, l.maxHeight, height);
        AtLeastOne(width * l.maxHeight, height);
      }
    }
  }

  lemma AtLeastOne(a: int, d: nat)
    requires d > 0 && a >= 0
    ensures Max(1, a / d) == if a < d then 1 else a / d
  {
    DivisionBounds(a, d);
  }

  lemma CrossErrorInt(w: int, h: int, width: nat, height: nat, s: real)
    requires width > 0 && height > 0
    requires -1.0 < w as real - width as real * s < 1.0 && -1.0 < h as real - height as real * s < 1.0
    ensures -(width + height) < w * height - h * width < width + height
  {
    CrossError(w as real, h as real, width as real, height as real, s);
    assert (w * height) as real == w as real * height as real && (h * width) as real == h as real * width as real;
  }

  lemma CrossError(w: real, h: real, width: real, height: real, s: real)
    requires width > 0.0 && height > 0.0
    requires -1.0 < w - width * s < 1.0 && -1.0 < h - height * s < 1.0
    ensures -(width + height) < w * height - h * width < width + height
  {
    var dw, dh := w - width * s, h - height * s;
    var a, b := dw * height, dh * width;
    assert w * height - h * width == a - b by {
      assert w * height == (width * s) * height + a;
      assert h * width == (height * s) * width + b;
      assert (width * s) * height == (height * s) * width;
    }
    assert -height < a < height by {
      Scaled2(height, dw);
    }
    assert -width < b < width by {
      Scaled2(width, dh);
    }
  }

  lemma Scaled2(n: real, d: real)
    requires n > 0.0 && -1.0 < d < 1.0
    ensures -n < d * n < n
  {
    assert n * (1.0 - d) > 0.0 && n * (1.0 + d) > 0.0;
  }

  /** Shrinking again changes nothing. */
  lemma FitIsFixed(l: Limits, width: nat, height: nat)
    ensures var (w, h) := Fit(l, width, height);
            w >= 0 && h >= 0 && Fit(l, w, h) == (w, h)
  {
    if width > 0 && height > 0 {
      FitBounds(l, width, height);
      var (w, h) := Fit(l, width, height);
      ShrinksExactly(l, w, h);
    }
  }

  // --- the published message ---

  /** "rgb8" */
  const RGB8: seq<Byte> := [0x72, 0x67, 0x62, 0x38]

  /** The Image message for an RGB picture: three bytes a pixel, rows of three times the width. */
  function Message(sec: int, nanosec: Cdr.UInt32, frameId: seq<Byte>, width: nat, height: nat,
                   pixels: seq<Byte>): Cdr.Image
    requires height < 0x1_0000_0000 && 3 * width < 0x1_0000_0000
  {
    Cdr.Image(sec, nanosec, frameId, height, width, RGB8, 0, 3 * width, pixels)
  }

  /** A published picture passes the gate exactly when it expects its size, rows of three bytes a pixel, and rgb8. */
  lemma MessagePassesGate(utf8: Cdr.Utf8, sec: int, nanosec: Cdr.UInt32, frameId: seq<Byte>,
                          width: nat, height: nat, pixels: seq<Byte>, e: Cdr.Expected)
    requires height < 0x1_0000_0000 && 3 * width < 0x1_0000_0000 && |pixels| == 3 * width * height
    requires Message(sec, nanosec, frameId, width, height, pixels).Encodable() && utf8(frameId) && utf8(RGB8)
    ensures Cdr.Gate(utf8, Cdr.Encode(Message(sec, nanosec, frameId, width, height, pixels)), e).Success? <==>
            e == Cdr.Expected(width, height, 3 * width, RGB8)
  {
    Cdr.GateEncode(utf8, Message(sec, nanosec, frameId, width, height, pixels), e);
  }

  /** Decoding gives the frame id, the size, rgb8, little-endian pixels and all of them. */
  lemma MessageDecoded(utf8: Cdr.Utf8, sec: int, nanosec: Cdr.UInt32, frameId: seq<Byte>,
                       width: nat, height: nat, pixels: seq<Byte>)
    requires height < 0x1_0000_0000 && 3 * width < 0x1_0000_0000
    requires Message(sec, nanosec, frameId, width, height, pixels).Encodable() && utf8(frameId) && utf8(RGB8)
    ensures var body := Cdr.Encode(Message(sec, nanosec, frameId, width, height, pixels))[4..];
            var r := Cdr.Walk(utf8, body);
            && r.Success? && r.value.pos <= |body| && body[r.value.pos..] == pixels
            && r.value == Cdr.Fields(frameId, height, width, [0x72, 0x67, 0x62, 0x38], 0, 3 * width, |pixels|,
                                     r.value.pos)
  {
    Cdr.WalkEncode(utf8, Message(sec, nanosec, frameId, width, height, pixels));
  }

  /** What the publisher encodes: the picture at the fitted size, resized by the imaging library. */
  function Published(l: Limits, width: nat, height: nat, sec: int, nanosec: Cdr.UInt32, frameId: seq<Byte>,
                     resized: (int, int) -> seq<Byte>): Cdr.Image
    requires 0 < width && 3 * width < 0x1_0000_0000 && 0 < height < 0x1_0000_0000
  {
    FitBounds(l, width, height);
    var (w, h) := Fit(l, width, height);
    Message(sec, nanosec, frameId, w, h, resized(w, h))
  }

  /**
    * From the camera frame through shrinking, publishing and encoding to the gate: it passes exactly
    * when it expects the fitted size, rows of three times that width, and rgb8.
    */
  lemma PublishedPassesGate(utf8: Cdr.Utf8, l: Limits, width: nat, height: nat, sec: int, nanosec: Cdr.UInt32,
                            frameId: seq<Byte>, resized: (int, int) -> seq<Byte>, e: Cdr.Expected)
    requires 0 < width && 3 * width < 0x1_0000_0000 && 0 < height < 0x1_0000_0000
    requires forall w, h :: |resized(w, h)| == if w > 0 && h > 0 then 3 * w * h else 0
    requires Published(l, width, height, sec, nanosec, frameId, resized).Encodable() && utf8(frameId) && utf8(RGB8)
    ensures Cdr.Gate(utf8, Cdr.Encode(Published(l, width, height, sec, nanosec, frameId, resized)), e).Success? <==>
            e == Cdr.Expected(Fit(l, width, height).0, Fit(l, width, height).1, 3 * Fit(l, width, height).0, RGB8)
  {
    FitBounds(l, width, height);
    var (w, h) := Fit(l, width, height);
    MessagePassesGate(utf8, sec, nanosec, frameId, w, h, resized(w, h), e);
  }
}
