/** Which window of a picture is drawn, and at what size, when it is fitted into or cropped to a target. */
module ImageLayout {
  import opened Options

  const MAX_DIMENSION: int := 3072

  datatype Layout = Layout(sourceX: int, sourceY: int, sourceWidth: int, sourceHeight: int, width: int, height: int)

  function Max(a: int, b: int): int { if a < b then b else a }
  function Min(a: int, b: int): int { if a < b then a else b }

  function CalculateLayout(width: int, height: int, targetWidth: int, targetHeight: int, crop: bool): Option<Layout>
  {
    if width <= 0 || height <= 0 || width > MAX_DIMENSION || height > MAX_DIMENSION || targetWidth <= 0 ||
       targetHeight <= 0 || targetWidth > MAX_DIMENSION || targetHeight > MAX_DIMENSION then None
    else
      var wide := width * targetHeight > height * targetWidth;
      if crop && wide then
        var w := Max(1, height * targetWidth / targetHeight);
        Some(Layout((width - w) / 2, 0, w, height, targetWidth, targetHeight))
      else if crop then
        var h := Max(1, width * targetHeight / targetWidth);
        Some(Layout(0, (height - h) / 2, width, h, targetWidth, targetHeight))
      else if wide then Some(Layout(0, 0, width, height, targetWidth, Max(1, height * targetWidth / width)))
      else Some(Layout(0, 0, width, height, Max(1, width * targetHeight / height), targetHeight))
  }

  /** The window lies inside the picture and the drawing inside the target. */
  predicate Fits(lay: Layout, width: int, height: int, targetWidth: int, targetHeight: int)
  {
    0 <= lay.sourceX && 0 < lay.sourceWidth && lay.sourceX + lay.sourceWidth <= width &&
    0 <= lay.sourceY && 0 < lay.sourceHeight && lay.sourceY + lay.sourceHeight <= height &&
    0 < lay.width <= targetWidth && 0 < lay.height <= targetHeight
  }

  /** a * b / c, rounded down and kept positive. */
  lemma ScaledDown(a: int, b: int, c: int, bound: int)
    requires a > 0 && b > 0 && c > 0 && bound > 0 && a * b <= bound * c
    ensures 1 <= Max(1, a * b / c) <= bound
    ensures Max(1, a * b / c) == 1 || Max(1, a * b / c) * c <= a * b
    ensures a * b < (Max(1, a * b / c) + 1) * c
  {
    var q := a * b / c;
    assert q * c <= a * b < (q + 1) * c by { DivBounds(a * b, c); }
    if q > bound {
      MulMono(bound + 1, q, c);
    }
    if q < 1 {
      MulMono(q + 1, 2, c);
    }
  }

  lemma DivBounds(n: int, c: int)
    requires c > 0
    ensures n / c * c <= n < (n / c + 1) * c
  {
  }

  lemma MulMono(a: int, b: int, c: int)
    requires a <= b && c >= 0
    ensures a * c <= b * c
  {
  }

  lemma MulStrict(a: int, b: int, c: int)
    requires a * c < b * c && c >= 0
    ensures a < b
  {
  }

  lemma LayoutFits(width: int, height: int, targetWidth: int, targetHeight: int, crop: bool)
    requires CalculateLayout(width, height, targetWidth, targetHeight, crop).Some?
    ensures Fits(CalculateLayout(width, height, targetWidth, targetHeight, crop).value, width, height, targetWidth,
                 targetHeight)
  {
    hide Max;
    var wide := width * targetHeight > height * targetWidth;
    if crop && wide {
      ScaledDown(height, targetWidth, targetHeight, width);
    } else if crop {
      ScaledDown(width, targetHeight, targetWidth, height);
    } else if wide {
      ScaledDown(height, targetWidth, width, targetHeight);
    } else {
      ScaledDown(width, targetHeight, height, targetWidth);
    }
  }

  /**
   * Cropping fills the target from a centred window that is as large as the target's shape allows: one more
   * pixel along the cut side would be too many.
   */
  lemma CropFillsTarget(width: int, height: int, targetWidth: int, targetHeight: int)
    requires CalculateLayout(width, height, targetWidth, targetHeight, true).Some?
    ensures var lay := CalculateLayout(width, height, targetWidth, targetHeight, true).value;
            lay.width == targetWidth && lay.height == targetHeight &&
            0 <= width - lay.sourceWidth - 2 * lay.sourceX <= 1 &&
            0 <= height - lay.sourceHeight - 2 * lay.sourceY <= 1 &&
            (lay.sourceWidth == width || lay.sourceHeight == height) &&
            (lay.sourceWidth < width ==>
              lay.sourceHeight * targetWidth < (lay.sourceWidth + 1) * targetHeight &&
              (lay.sourceWidth == 1 || lay.sourceWidth * targetHeight <= lay.sourceHeight * targetWidth)) &&
            (lay.sourceHeight < height ==>
              lay.sourceWidth * targetHeight < (lay.sourceHeight + 1) * targetWidth &&
              (lay.sourceHeight == 1 || lay.sourceHeight * targetWidth <= lay.sourceWidth * targetHeight))
  {
    hide Max;
    if width * targetHeight > height * targetWidth {
      ScaledDown(height, targetWidth, targetHeight, width);
    } else {
      ScaledDown(width, targetHeight, targetWidth, height);
    }
  }

  /** Fitting keeps the whole picture and touches the target on one side, as large as its shape allows. */
  lemma FitKeepsAll(width: int, height: int, targetWidth: int, targetHeight: int)
    requires CalculateLayout(width, height, targetWidth, targetHeight, false).Some?
    ensures var lay := CalculateLayout(width, height, targetWidth, targetHeight, false).value;
            lay.sourceX == 0 && lay.sourceY == 0 && lay.sourceWidth == width && lay.sourceHeight == height &&
            (lay.width == targetWidth || lay.height == targetHeight) &&
            (lay.height < targetHeight ==>
              height * targetWidth < (lay.height + 1) * width &&
              (lay.height == 1 || lay.height * width <= height * targetWidth)) &&
            (lay.width < targetWidth ==>
              width * targetHeight < (lay.width + 1) * height &&
              (lay.width == 1 || lay.width * height <= width * targetHeight))
  {
    hide Max;
    if width * targetHeight > height * targetWidth {
      ScaledDown(height, targetWidth, width, targetHeight);
    } else {
      ScaledDown(width, targetHeight, height, targetWidth);
    }
  }

  /** Cropped at the sides: floor(h * tw / th) < tw only if h < th. */
  lemma CropEnlarges(h: int, tw: int, th: int)
    requires h > 0 && tw > 0 && th > 0 && tw > h * tw / th
    ensures th >= h
  {
    DivBounds(h * tw, th);
    MulMono(h * tw / th + 1, tw, th);
    MulStrict(h, th, tw);
  }

  /** Drawn at a floor above its own size only if the target is larger. */
  lemma FitEnlarges(w: int, h: int, th: int)
    requires w > 0 && h > 0 && th > 0 && w * th / h >= w + 1
    ensures th >= h
  {
    DivBounds(w * th, h);
    MulMono(w + 1, w * th / h, h);
    MulStrict(h, th, w);
  }

  /**
   * A picture drawn wider than its window is drawn at least as high: no path enlarges one way and shrinks the
   * other.
   */
  lemma EnlargingWidthEnlargesHeight(width: int, height: int, targetWidth: int, targetHeight: int, crop: bool)
    requires CalculateLayout(width, height, targetWidth, targetHeight, crop).Some?
    ensures var lay := CalculateLayout(width, height, targetWidth, targetHeight, crop).value;
            lay.width > lay.sourceWidth ==> lay.height >= lay.sourceHeight
  {
    var lay := CalculateLayout(width, height, targetWidth, targetHeight, crop).value;
    if lay.width > lay.sourceWidth {
      if crop && width * targetHeight > height * targetWidth {
        CropEnlarges(height, targetWidth, targetHeight);
      } else if crop {
        MulMono(width, targetWidth, targetHeight);
        DivBelow(width * targetHeight, targetWidth, targetHeight);
      } else if width * targetHeight > height * targetWidth {
        MulMono(width, targetWidth, height);
        DivAtLeast(height * targetWidth, width, height);
      } else {
        FitEnlarges(width, height, targetHeight);
      }
    }
  }

  lemma DivBelow(n: int, c: int, bound: int)
    requires c > 0 && bound >= 0 && n <= c * bound
    ensures n / c <= bound
  {
    DivBounds(n, c);
    if n / c > bound {
      MulMono(bound + 1, n / c, c);
    }
  }

  lemma DivAtLeast(n: int, c: int, bound: int)
    requires c > 0 && bound * c <= n
    ensures n / c >= bound
  {
    DivBounds(n, c);
    if n / c < bound {
      MulMono(n / c + 1, bound, c);
    }
  }

  /** Every size of a calculated layout is within the limit. */
  predicate Small(lay: Layout)
  {
    0 < lay.sourceWidth <= MAX_DIMENSION && 0 < lay.sourceHeight <= MAX_DIMENSION &&
    0 < lay.width <= MAX_DIMENSION && 0 < lay.height <= MAX_DIMENSION
  }

  lemma CalculatedIsSmall(width: int, height: int, targetWidth: int, targetHeight: int, crop: bool)
    requires CalculateLayout(width, height, targetWidth, targetHeight, crop).Some?
    ensures Small(CalculateLayout(width, height, targetWidth, targetHeight, crop).value)
  {
    LayoutFits(width, height, targetWidth, targetHeight, crop);
  }

  /** A product of two sizes fits 31 bits. */
  lemma ProductFits(a: int, b: int)
    requires 0 <= a <= MAX_DIMENSION && 0 <= b <= MAX_DIMENSION
    ensures 0 <= a * b < 0x8000_0000
  {
    MulMono(a, MAX_DIMENSION, b);
  }

  /** Which sizes are accepted. */
  lemma CalculatedExactly(width: int, height: int, targetWidth: int, targetHeight: int, crop: bool)
    ensures CalculateLayout(width, height, targetWidth, targetHeight, crop).Some? <==>
              1 <= width <= 3072 && 1 <= height <= 3072 && 1 <= targetWidth <= 3072 && 1 <= targetHeight <= 3072
  {
  }
}
