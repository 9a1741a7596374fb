/** The abstract content of a compiled document and the image-fit arithmetic.
    A document is the sequence of drawing operations the compiler issues to the PDF
    writer; fonts, colours and cursor positions are not part of it.  Lengths are
    real numbers: the floating-point rounding of the code is not modelled. */
module Layout {

  type Positive = x: real | x > 0.0 witness 1.0

  /** The native size of an image, as the PDF writer reads it from the file. */
  datatype ImageSize = ImageSize(width: Positive, height: Positive)

  /** The size an image is drawn at. */
  datatype Fitted = Fitted(width: real, height: real)

  /** The PDF writer's default page, US Letter, is 612 points wide, with 72-point margins. */
  const PageWidth: real := 612.0
  const MarginLeft: real := 72.0

  datatype RenderOp =
    | Cover(path: string)      // the cover image drawn on the first page
    | Subtitle(text: string)   // the subtitle, in the large title font
    | Title(text: string)      // the title, below the subtitle
    | NewPage                  // `addPage()`
    | Image(path: string, width: real, height: real)
    | Text(text: string)       // an answer

  /** Scale an image to the page's printable width and derive its height from the
      image's own width-to-height ratio: `newWidth = pageWidth - 2 * marginLeft`,
      `newHeight = newWidth / (imgWidth / imgHeight)`. */
  function FitImage(pageWidth: real, marginLeft: real, img: ImageSize): (r: Fitted)
    ensures r.width == pageWidth - 2.0 * marginLeft
    ensures r.height * img.width == r.width * img.height
    ensures r.width != 0.0 ==> r.height != 0.0 && r.width / r.height == img.width / img.height
  {
    var ratio := img.width / img.height;
    var newWidth := pageWidth - 2.0 * marginLeft;
    var newHeight := newWidth / ratio;
    assert newHeight * img.width == newWidth * img.height by {
      assert ratio * img.height == img.width;
      assert newHeight * ratio == newWidth;
      calc {
        newHeight * img.width;
        newHeight * (ratio * img.height);
        (newHeight * ratio) * img.height;
        newWidth * img.height;
      }
    }
    Fitted(newWidth, newHeight)
  }

  /** The fitted size depends on the image's proportions only, not on its resolution:
      the image is always stretched or shrunk to the full printable width. */
  lemma {:induction false} FitIgnoresResolution(pageWidth: real, marginLeft: real, img: ImageSize, k: Positive)
    ensures FitImage(pageWidth, marginLeft, ImageSize(k * img.width, k * img.height))
         == FitImage(pageWidth, marginLeft, img)
  {
    var big := ImageSize(k * img.width, k * img.height);
    assert big.width / big.height == img.width / img.height by {
      var q := img.width / img.height;
      assert q * img.height == img.width;
      assert q * big.height == k * (q * img.height);
      assert q * big.height == big.width;
    }
  }

  /** On the default page every image is drawn 468 points wide, undistorted. */
  lemma DefaultPageFit(img: ImageSize)
    ensures FitImage(PageWidth, MarginLeft, img).width == 468.0
    ensures FitImage(PageWidth, MarginLeft, img).height > 0.0
    ensures FitImage(PageWidth, MarginLeft, img).width / FitImage(PageWidth, MarginLeft, img).height
         == img.width / img.height
  {
    var r := FitImage(PageWidth, MarginLeft, img);
    assert r.height * img.width == 468.0 * img.height;
  }
}
