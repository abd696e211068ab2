/**
 * A compressed font from its glyph images: the rows of each image padded to whole bytes, and a group made of the
 * images of its glyphs, one behind the other in index order. What the decompressor hands out is the image, packed.
 */
module FontImages {
  import opened Bytes
  import opened Options
  import opened GlyphPacking
  import opened FontTables
  import opened FontGroups

  /** The images of the glyphs below n that the map puts into group g, one behind the other. */
  function MappedImages(groupOf: seq<nat>, images: seq<seq<byte>>, g: nat, n: nat): seq<byte>
    requires n <= |groupOf| == |images|
  {
    if n == 0 then []
    else MappedImages(groupOf, images, g, n - 1) + if groupOf[n - 1] == g then images[n - 1] else []
  }

  function Joined(images: seq<seq<byte>>): seq<byte>
  {
    if images == [] then [] else Joined(images[..|images| - 1]) + images[|images| - 1]
  }

  /** Every image has the padded rows of its glyph, and every group is made of the images of its glyphs. */
  ghost predicate MadeOf(font: FontData, images: seq<seq<byte>>)
  {
    |images| == |font.glyphs| && |font.inflated| == |font.groups| &&
    (forall i :: 0 <= i < |images| ==> |images[i]| == (font.glyphs[i].width + 3) / 4 * font.glyphs[i].height) &&
    match font.glyphToGroup
    case Some(groupOf) =>
      |groupOf| == |images| &&
      forall g :: 0 <= g < |font.groups| ==> font.inflated[g] == MappedImages(groupOf, images, g, |images|)
    case None =>
      forall g :: 0 <= g < |font.groups| ==>
        var first, count := font.groups[g].firstGlyphIndex, font.groups[g].glyphCount;
        first + count <= |images| && font.inflated[g] == Joined(images[first..first + count])
  }

  lemma ImageSize(width: nat, height: nat)
    ensures AlignedSize(width, height) == (width + 3) / 4 * height
  {
    if height == 0 { assert (width + 3) / 4 * height == 0; }
  }

  lemma {:induction false} MappedBefore(font: FontData, groupOf: seq<nat>, images: seq<seq<byte>>, g: nat, n: nat)
    requires font.glyphToGroup == Some(groupOf) && |groupOf| == |images| == |font.glyphs| && n <= |images|
    requires forall i :: 0 <= i < |images| ==> |images[i]| == (font.glyphs[i].width + 3) / 4 * font.glyphs[i].height
    ensures |MappedImages(groupOf, images, g, n)| == MappedOffset(font, g, n)
  {
    if n > 0 {
      MappedBefore(font, groupOf, images, g, n - 1);
      ImageSize(font.glyphs[n - 1].width, font.glyphs[n - 1].height);
    }
  }

  lemma {:induction false} MappedContinues(groupOf: seq<nat>, images: seq<seq<byte>>, g: nat, n: nat, m: nat)
    requires n <= m <= |groupOf| == |images|
    ensures MappedImages(groupOf, images, g, n) <= MappedImages(groupOf, images, g, m)
    decreases m
  {
    if n < m {
      MappedContinues(groupOf, images, g, n, m - 1);
    }
  }

  lemma {:induction false} RunBefore(font: FontData, images: seq<seq<byte>>, first: nat, n: nat)
    requires first <= n <= |images| == |font.glyphs|
    requires forall i :: 0 <= i < |images| ==> |images[i]| == (font.glyphs[i].width + 3) / 4 * font.glyphs[i].height
    ensures |Joined(images[first..n])| == RunOffset(font, first, n)
    decreases n
  {
    if first < n {
      RunBefore(font, images, first, n - 1);
      JoinedNext(images, first, n - 1);
      ImageSize(font.glyphs[n - 1].width, font.glyphs[n - 1].height);
    } else {
      assert images[first..n] == [];
    }
  }

  lemma JoinedNext(images: seq<seq<byte>>, first: nat, n: nat)
    requires first <= n < |images|
    ensures Joined(images[first..n + 1]) == Joined(images[first..n]) + images[n]
  {
    assert images[first..n + 1][..n - first] == images[first..n];
  }

  lemma {:induction false} JoinedContinues(images: seq<seq<byte>>, first: nat, n: nat, m: nat)
    requires first <= n <= m <= |images|
    ensures Joined(images[first..n]) <= Joined(images[first..m])
    decreases m
  {
    if n < m {
      JoinedContinues(images, first, n, m - 1);
      JoinedNext(images, first, m - 1);
    }
  }

  predicate LiesAt(group: seq<byte>, off: nat, image: seq<byte>)
  {
    off + |image| <= |group| && group[off..off + |image|] == image
  }

  lemma BehindPrefix(before: seq<byte>, image: seq<byte>, group: seq<byte>)
    requires before + image <= group
    ensures LiesAt(group, |before|, image)
  {
  }

  /** The image of a glyph lies in its group, where the padded sizes before it say. */
  lemma ImageInGroup(font: FontData, images: seq<seq<byte>>, i: nat)
    requires WellFormed(font) && MadeOf(font, images) && i < |images|
    ensures GroupIndex(font, i) < |font.inflated|
    ensures LiesAt(font.inflated[GroupIndex(font, i)], AlignedOffset(font, i), images[i])
  {
    hide WellFormed, MappedOffset, RunOffset, LiesAt, Joined, MappedImages;
    GroupOfGlyph(font, i);
    match font.glyphToGroup {
      case Some(groupOf) => { ImageMapped(font, images, groupOf, i); }
      case None => { ImageInRun(font, images, i); }
    }
  }

  lemma ImageMapped(font: FontData, images: seq<seq<byte>>, groupOf: seq<nat>, i: nat)
    requires MadeOf(font, images) && font.glyphToGroup == Some(groupOf) && i < |images| && groupOf[i] < |font.groups|
    ensures LiesAt(font.inflated[groupOf[i]], MappedOffset(font, groupOf[i], i), images[i])
  {
    hide MappedOffset, LiesAt;
    MappedBefore(font, groupOf, images, groupOf[i], i);
    MappedContinues(groupOf, images, groupOf[i], i + 1, |images|);
    BehindPrefix(MappedImages(groupOf, images, groupOf[i], i), images[i], font.inflated[groupOf[i]]);
  }

  lemma ImageInRun(font: FontData, images: seq<seq<byte>>, i: nat)
    requires MadeOf(font, images) && font.glyphToGroup == None && i < |images| && GroupIndex(font, i) < |font.groups|
    ensures var g := GroupIndex(font, i);
            font.groups[g].firstGlyphIndex <= i &&
            LiesAt(font.inflated[g], RunOffset(font, font.groups[g].firstGlyphIndex, i), images[i])
  {
    hide RunOffset, LiesAt, Joined;
    var g := GroupIndex(font, i);
    var first := font.groups[g].firstGlyphIndex;
    RunBefore(font, images, first, i);
    JoinedNext(images, first, i);
    JoinedContinues(images, first, i + 1, first + font.groups[g].glyphCount);
    BehindPrefix(Joined(images[first..i]), images[i], font.inflated[g]);
  }

  /** The packed form of padded rows depends on these rows alone, not on where they lie. */
  lemma PackedAnywhere(src: seq<byte>, off: nat, image: seq<byte>, width: nat, height: nat)
    requires off + |image| <= |src| && src[off..off + |image|] == image && |image| == AlignedSize(width, height)
    ensures Holds(src, off, width, height) && Packed(src, off, width, height) == Packed(image, 0, width, height)
  {
    hide AlignedSize, Pixel, Stride;
    RowsAnywhere(src, off, image, width, height, height);
  }

  lemma {:induction false} RowsAnywhere(src: seq<byte>, off: nat, image: seq<byte>, width: nat, height: nat, n: nat)
    requires off + |image| <= |src| && src[off..off + |image|] == image && |image| == AlignedSize(width, height)
    requires n <= height
    ensures Rows(src, off, width, height, n) == Rows(image, 0, width, height, n)
  {
    hide AlignedSize, Row;
    if n > 0 {
      RowsAnywhere(src, off, image, width, height, n - 1);
      RowAnywhere(src, off, image, width, height, n - 1);
    }
  }

  lemma SameByte(src: seq<byte>, off: nat, image: seq<byte>, k: nat)
    requires off + |image| <= |src| && src[off..off + |image|] == image && k < |image|
    ensures off + k < |src| && src[off + k] == image[k]
  {
  }

  lemma RowAnywhere(src: seq<byte>, off: nat, image: seq<byte>, width: nat, height: nat, y: nat)
    requires off + |image| <= |src| && src[off..off + |image|] == image && |image| == AlignedSize(width, height)
    requires y < height
    ensures Row(src, off, width, height, y) == Row(image, 0, width, height, y)
  {
    hide AlignedSize, Pixel, Stride;
    forall x | 0 <= x < width
      ensures AlignedPixel(src, off, width, height, x, y) == AlignedPixel(image, 0, width, height, x, y)
    {
      RowInside(width, height, x, y);
      SameByte(src, off, image, y * Stride(width) + x / 4);
    }
  }

  /** The bits of a glyph are its own image, packed, in mapped fonts and in fonts with contiguous groups. */
  lemma BitsAreImage(font: FontData, images: seq<seq<byte>>, i: nat)
    requires WellFormed(font) && MadeOf(font, images) && i < |images|
    ensures var glyph := font.glyphs[i];
            Holds(images[i], 0, glyph.width, glyph.height) &&
            GlyphBits(font, i) == Packed(images[i], 0, glyph.width, glyph.height)
  {
    hide WellFormed, Packed, GroupIndex, AlignedOffset;
    var glyph := font.glyphs[i];
    ImageSize(glyph.width, glyph.height);
    ImageInGroup(font, images, i);
    PackedAnywhere(font.inflated[GroupIndex(font, i)], AlignedOffset(font, i), images[i], glyph.width, glyph.height);
  }

  /** Pixel j of a byte, the first one in the highest bits. */
  function PixelOf(b: byte, j: nat): nat
    requires j < 4
  {
    b / [64, 16, 4, 1][j] % 4
  }

  /**
   * Pixel by pixel: number y * width + x of the bits handed out is the one in column x of row y of the image, where
   * every row starts with a new byte.
   */
  ghost predicate ShowsImage(bits: seq<byte>, image: seq<byte>, width: nat, height: nat)
  {
    |bits| == (width * height + 3) / 4 &&
    forall x, y :: 0 <= x < width && 0 <= y < height ==> SamePixel(bits, image, width, x, y)
  }

  predicate SamePixel(bits: seq<byte>, image: seq<byte>, width: nat, x: nat, y: nat)
  {
    var k, b := y * width + x, y * ((width + 3) / 4) + x / 4;
    k / 4 < |bits| && b < |image| && PixelOf(bits[k / 4], k % 4) == PixelOf(image[b], x % 4)
  }

  lemma PackedShowsImage(image: seq<byte>, width: nat, height: nat)
    requires |image| == AlignedSize(width, height)
    ensures ShowsImage(Packed(image, 0, width, height), image, width, height)
  {
    hide Packed, AlignedSize;
    forall x, y | 0 <= x < width && 0 <= y < height
      ensures SamePixel(Packed(image, 0, width, height), image, width, x, y) {
      PackedPixel(image, 0, width, height, x, y);
      RowInside(width, height, x, y);
    }
  }

  /** For every font made of images, the bits of a glyph show its image. */
  lemma BitsShowImage(font: FontData, i: nat)
    requires WellFormed(font) && i < |font.glyphs|
    ensures forall images :: MadeOf(font, images) ==>
              ShowsImage(GlyphBits(font, i), images[i], font.glyphs[i].width, font.glyphs[i].height)
  {
    hide WellFormed, Packed, GlyphBits, ShowsImage;
    forall images | MadeOf(font, images)
      ensures ShowsImage(GlyphBits(font, i), images[i], font.glyphs[i].width, font.glyphs[i].height) {
      ImagesFit(font, images, i);
      BitsAreImage(font, images, i);
      PackedShowsImage(images[i], font.glyphs[i].width, font.glyphs[i].height);
    }
  }

  lemma ImagesThere(font: FontData)
    ensures forall images :: MadeOf(font, images) ==> |images| == |font.glyphs|
  {
  }

  lemma ImagesFit(font: FontData, images: seq<seq<byte>>, i: nat)
    requires MadeOf(font, images) && i < |font.glyphs|
    ensures |images| == |font.glyphs| && |images[i]| == AlignedSize(font.glyphs[i].width, font.glyphs[i].height)
  {
    ImageSize(font.glyphs[i].width, font.glyphs[i].height);
  }

  // ---- The fonts there are ----

  /** Tables of a font whose groups are not looked at. */
  predicate Tables(font: FontData)
  {
    |font.groups| > 0 && |font.inflated| == |font.groups| && |font.intervals| > 0 && Ascending(font.intervals) &&
    (forall k :: 0 <= k < |font.intervals| ==>
      font.intervals[k].offset + (font.intervals[k].last - font.intervals[k].first) < |font.glyphs|) &&
    (forall g :: 0 <= g < |font.groups| ==> |font.inflated[g]| == font.groups[g].uncompressedSize) &&
    (forall i :: 0 <= i < |font.glyphs| ==>
      font.glyphs[i].dataLength == (font.glyphs[i].width * font.glyphs[i].height + 3) / 4) &&
    match font.glyphToGroup
    case Some(groupOf) =>
      var last := font.intervals[|font.intervals| - 1];
      |font.glyphs| == last.offset + (last.last - last.first + 1) && |groupOf| == |font.glyphs| &&
      forall i :: 0 <= i < |groupOf| ==> groupOf[i] < |font.groups|
    case None =>
      (forall g, h, i :: 0 <= g < h < |font.groups| && 0 <= i < |font.glyphs| && Ranges(font.groups[g], i) ==>
        !Ranges(font.groups[h], i)) &&
      forall i :: 0 <= i < |font.glyphs| ==> HasGroup(font, i)
  }

  /** From its first glyph on the group has glyphCount glyphs. */
  predicate Ranges(group: Group, i: nat) { 0 <= i - group.firstGlyphIndex < group.glyphCount }

  predicate HasGroup(font: FontData, i: nat)
  {
    exists g :: 0 <= g < |font.groups| && Ranges(font.groups[g], i)
  }

  /** Every font made of images, with tables to match, is one that the decompressor can serve. */
  lemma MadeIsWellFormed(font: FontData, images: seq<seq<byte>>)
    requires Tables(font) && MadeOf(font, images)
    ensures WellFormed(font)
  {
    hide MappedOffset, RunOffset, Joined, MappedImages, Ascending;
    match font.glyphToGroup {
      case Some(groupOf) => {
        forall i | 0 <= i < |groupOf|
          ensures MappedOffset(font, groupOf[i], i) + GlyphAlignedSize(font, i) <= |font.inflated[groupOf[i]]| {
          MappedFits(font, images, groupOf, i);
        }
      }
      case None => {
        assert forall g, i :: 0 <= g < |font.groups| && 0 <= i < |font.glyphs| ==>
                 InGroup(font.groups[g], i) == Ranges(font.groups[g], i);
        forall i | 0 <= i < |font.glyphs|
          ensures GroupIndex(font, i) < |font.groups| && font.groups[GroupIndex(font, i)].firstGlyphIndex <= i &&
                  RunOffset(font, font.groups[GroupIndex(font, i)].firstGlyphIndex, i) + GlyphAlignedSize(font, i) <=
                  |font.inflated[GroupIndex(font, i)]| {
          RunFits(font, images, i);
        }
      }
    }
  }

  lemma MappedFits(font: FontData, images: seq<seq<byte>>, groupOf: seq<nat>, i: nat)
    requires MadeOf(font, images) && font.glyphToGroup == Some(groupOf) && i < |groupOf| && groupOf[i] < |font.groups|
    ensures MappedOffset(font, groupOf[i], i) + GlyphAlignedSize(font, i) <= |font.inflated[groupOf[i]]|
  {
    MappedBefore(font, groupOf, images, groupOf[i], i);
    MappedContinues(groupOf, images, groupOf[i], i + 1, |images|);
    ImageSize(font.glyphs[i].width, font.glyphs[i].height);
  }

  lemma RunFits(font: FontData, images: seq<seq<byte>>, i: nat)
    requires MadeOf(font, images) && font.glyphToGroup == None && i < |font.glyphs|
    requires HasGroup(font, i)
    ensures GroupIndex(font, i) < |font.groups| && font.groups[GroupIndex(font, i)].firstGlyphIndex <= i
    ensures RunOffset(font, font.groups[GroupIndex(font, i)].firstGlyphIndex, i) + GlyphAlignedSize(font, i) <=
            |font.inflated[GroupIndex(font, i)]|
  {
    hide RunOffset, ScanGroups, Joined;
    var g := GroupIndex(font, i);
    var first := font.groups[g].firstGlyphIndex;
    RunBefore(font, images, first, i);
    JoinedNext(images, first, i);
    JoinedContinues(images, first, i + 1, first + font.groups[g].glyphCount);
    ImageSize(font.glyphs[i].width, font.glyphs[i].height);
  }
}
