/** The asset form (components/Creator/AssetInput.tsx): the dimension clamp
    applied before an image is re-encoded, adding and removing photos, and
    importing a PDF's text into the story. */
module Assets {
  import opened Wrappers
  import opened Strings
  import opened Types
  import Pdf

  const MaxSize: real := 1024.0

  /** The width/height computation of `resizeImage`: the longer side is
      brought down to 1024 pixels, the other scaled by the same factor.
      Sizes are exact reals. */
  method ResizeDimensions(imageWidth: nat, imageHeight: nat) returns (width: real, height: real)
    ensures imageWidth <= 1024 && imageHeight <= 1024 ==>
      width == imageWidth as real && height == imageHeight as real
    ensures 0.0 <= width <= MaxSize && 0.0 <= height <= MaxSize
    ensures width * imageHeight as real == height * imageWidth as real
    ensures imageWidth > 1024 || imageHeight > 1024 ==> width == MaxSize || height == MaxSize
  {
    width := imageWidth as real;
    height := imageHeight as real;
    if width > height {
      if width > MaxSize {
        ScaledSide(width, height);
        height := height * (MaxSize / width);
        width := MaxSize;
      }
    } else {
      if height > MaxSize {
        ScaledSide(height, width);
        width := width * (MaxSize / height);
        height := MaxSize;
      }
    }
  }

  /** Scaling the shorter side by the factor that brings the longer one to
      1024 keeps it within 0..1024 and keeps the ratio of the sides. */
  lemma ScaledSide(long: real, short: real)
    requires long > MaxSize && 0.0 <= short <= long
    ensures var scaled := short * (MaxSize / long);
      0.0 <= scaled <= MaxSize && scaled * long == MaxSize * short
  {
    var factor := MaxSize / long;
    assert factor > 0.0 && factor * long == MaxSize;
    assert short * factor <= long * factor;
    assert (short * factor) * long == short * (factor * long);
  }

  function AppendImages(images: seq<string>, added: seq<string>): (r: seq<string>)
    ensures |r| == |images| + |added|
    ensures r[..|images|] == images && r[|images|..] == added
  {
    images + added
  }

  /** `images.filter((_, i) => i !== idx)`. */
  function RemoveImage(images: seq<string>, idx: int): (r: seq<string>)
    ensures 0 <= idx < |images| ==> r == images[..idx] + images[idx + 1..]
    ensures !(0 <= idx < |images|) ==> r == images
  {
    if |images| == 0 then []
    else
      var last := |images| - 1;
      assert images[..last][..if 0 <= idx < last then idx else 0] == images[..if 0 <= idx < last then idx else 0];
      RemoveImage(images[..last], idx) + (if last == idx then [] else [images[last]])
  }

  /** Removing the photo just added gives back the photos there were before. */
  lemma RemoveAfterAppend(images: seq<string>, image: string)
    ensures RemoveImage(AppendImages(images, [image]), |images|) == images
  {
    assert (images + [image])[..|images|] == images;
  }

  const PdfMimeType: string := "application/pdf"
  const PdfSeparator: string := "\n\n[PDF Content]:\n"
  const InvalidPdfAlert: string := "Please upload a valid PDF file."
  const PdfReadAlert: string := "Failed to read PDF. Please try again."
  const ImagesFailedAlert: string := "Some images failed to load."

  /** The new story text after a PDF import. The merge keeps both texts: the
      story is a prefix and the extracted text a suffix, with the labelled
      separator between them when the story was not empty, and nothing else. */
  function MergePdfText(text: string, extracted: string): (r: string)
    ensures |r| == |text| + |extracted| + (if text == "" then 0 else |PdfSeparator|)
    ensures r[..|text|] == text && r[|r| - |extracted|..] == extracted
    ensures text != "" ==> r[|text|..|r| - |extracted|] == PdfSeparator
  {
    if text != "" then
      var r := text + PdfSeparator + extracted;
      assert r[|text|..|r| - |extracted|] == PdfSeparator;
      r
    else extracted
  }

  /** A chosen file: its MIME type and its pages (`None` when the PDF
      library cannot read it). */
  datatype ChosenFile = ChosenFile(mimeType: string, pages: Option<seq<seq<string>>>)

  /** `handlePdfUpload`: the new story text and the alert shown, if any. */
  method HandlePdfUpload(text: string, file: Option<ChosenFile>)
    returns (newText: string, alert: Option<string>)
    ensures file.None? ==> newText == text && alert.None?
    ensures file.Some? && file.value.mimeType != PdfMimeType ==>
      newText == text && alert == Some(InvalidPdfAlert)
    ensures file.Some? && file.value.mimeType == PdfMimeType && file.value.pages.None? ==>
      newText == text && alert == Some(PdfReadAlert)
    ensures file.Some? && file.value.mimeType == PdfMimeType && file.value.pages.Some? ==>
      newText == MergePdfText(text, Trim(Pdf.RawText(file.value.pages.value))) && alert.None?
  {
    newText, alert := text, None;
    if file.Some? {
      if file.value.mimeType != PdfMimeType {
        alert := Some(InvalidPdfAlert);
        return;
      }
      var extracted := Pdf.ExtractTextFromPdf(file.value.pages);
      if extracted.Success? {
        newText := MergePdfText(text, extracted.value);
      } else {
        alert := Some(PdfReadAlert);
      }
    }
  }

  /** How resizing the chosen files ended: every file gave a JPEG data URL,
      the promise chain threw, or some image never loaded. `resizeImage`
      rejects on no path and installs no error handler, so an image that fails
      to load leaves `Promise.all` pending for good. */
  datatype ResizeOutcome = Resized(urls: seq<string>) | ResizeThrew(error: JsError) | NeverSettles

  /** `handleImageUpload`: `resized` is `None` when no file list came with the
      event. Besides the new photos and the alert, the result says whether the
      "processing" flag is still set once the handler is done. */
  method HandleImageUpload(images: seq<string>, resized: Option<ResizeOutcome>)
    returns (newImages: seq<string>, alert: Option<string>, processing: bool)
    ensures resized.None? ==> newImages == images && alert.None? && !processing
    ensures resized == Some(NeverSettles) ==> newImages == images && alert.None? && processing
    ensures resized.Some? && resized.value.ResizeThrew? ==>
      newImages == images && alert == Some(ImagesFailedAlert) && !processing
    ensures resized.Some? && resized.value.Resized? ==>
      newImages == AppendImages(images, resized.value.urls) && alert.None? && !processing
  {
    newImages, alert, processing := images, None, false;
    if resized.Some? {
      processing := true;
      match resized.value {
        case Resized(urls) =>
          newImages := AppendImages(images, urls);
          processing := false;
        case ResizeThrew(_) =>
          alert := Some(ImagesFailedAlert);
          processing := false;
        case NeverSettles =>
      }
    }
  }
}
