/**
 * The upload checks of lib/ocr.ts: `validateFile`, which applies a size limit
 * and an exact MIME allow-list, and the MIME dispatch of `processBuffer` and
 * `processFile`, which routes a file to the PDF path, the image path or an
 * error. The extraction routines behind the two paths are mocks and appear
 * here only as the path chosen.
 */
module Ocr {
  import opened Wrappers
  import opened Text

  /** `maxSize`: 10 MiB. */
  const MaxSize: nat := 10 * 1024 * 1024

  const Pdf: string := "application/pdf"
  const ImagePrefix: string := "image/"

  /** `allowedTypes`, in the order the source lists them. */
  const AllowedTypes: seq<string> := [Pdf, "image/jpeg", "image/jpg", "image/png", "image/webp"]

  const SizeError: string := "File size too large. Maximum size is 10MB."
  const TypeError: string := "Unsupported file type. Please upload PDF or image files."

  /** What the code reads of a browser `File`: its size in bytes and its MIME type. */
  datatype FileInfo = FileInfo(size: nat, mimeType: string)

  /** `{ valid, error? }`. */
  datatype Validation = Validation(valid: bool, error: Option<string>)

  /** The extraction routine a file is sent to. */
  datatype ExtractionPath = PdfExtraction | ImageExtraction

  /**
   * `validateFile`. The size check comes first: an oversized file reports the
   * size error whatever its type, and a file of exactly `MaxSize` bytes
   * passes it. A file within the limit is valid exactly when its type is one
   * of the listed MIME strings. A valid result carries no error and an
   * invalid one always carries one.
   */
  function ValidateFile(f: FileInfo): (v: Validation)
    ensures f.size > MaxSize ==> !v.valid && v.error == Some(SizeError)
    ensures f.size <= MaxSize ==> (v.valid <==> f.mimeType in AllowedTypes)
    ensures f.size <= MaxSize && f.mimeType !in AllowedTypes ==> v.error == Some(TypeError)
    ensures v.valid <==> v.error.None?
  {
    if f.size > MaxSize then Validation(false, Some(SizeError))
    else if f.mimeType !in AllowedTypes then Validation(false, Some(TypeError))
    else Validation(true, None)
  }

  /**
   * The dispatch of `processBuffer`: "application/pdf" goes to the PDF path,
   * any other type starting with "image/" to the image path, and everything
   * else fails with "Unsupported file type: " followed by the type.
   */
  function ProcessBuffer(mimeType: string): (r: Result<ExtractionPath, string>)
    ensures r == Success(PdfExtraction) <==> mimeType == Pdf
    ensures r == Success(ImageExtraction) <==> mimeType != Pdf && StartsWith(mimeType, ImagePrefix)
    ensures r.Failure? <==> mimeType != Pdf && !StartsWith(mimeType, ImagePrefix)
    ensures r.Failure? ==> r.error == "Unsupported file type: " + mimeType
  {
    if mimeType == Pdf then Success(PdfExtraction)
    else if StartsWith(mimeType, ImagePrefix) then Success(ImageExtraction)
    else Failure("Unsupported file type: " + mimeType)
  }

  /**
   * The dispatch of `processFile`: the same three-way choice on the file's
   * own type; the size plays no part.
   */
  function ProcessFile(f: FileInfo): (r: Result<ExtractionPath, string>)
    ensures r == Success(PdfExtraction) <==> f.mimeType == Pdf
    ensures r == Success(ImageExtraction) <==> f.mimeType != Pdf && StartsWith(f.mimeType, ImagePrefix)
    ensures r.Failure? <==> f.mimeType != Pdf && !StartsWith(f.mimeType, ImagePrefix)
    ensures r.Failure? ==> r.error == "Unsupported file type: " + f.mimeType
  {
    ProcessBuffer(f.mimeType)
  }

  /** Every allowed type other than PDF is an image type. */
  lemma AllowedAreImagesOrPdf(mimeType: string)
    requires mimeType in AllowedTypes
    ensures mimeType == Pdf || StartsWith(mimeType, ImagePrefix)
  {
    if mimeType != Pdf {
      assert mimeType[..|ImagePrefix|] == ImagePrefix;
    }
  }

  /**
   * A file that passes `validateFile` is always dispatched: a PDF to the PDF
   * path, every other valid file to the image path.
   */
  lemma ValidFileIsDispatched(f: FileInfo)
    requires ValidateFile(f).valid
    ensures ProcessFile(f).Success?
    ensures ProcessFile(f).value == (if f.mimeType == Pdf then PdfExtraction else ImageExtraction)
  {
    AllowedAreImagesOrPdf(f.mimeType);
  }

  /**
   * The dispatch is looser than the validator: "image/gif" is sent to the
   * image path although `validateFile` rejects it, at any size.
   */
  lemma GifDispatchedButRejected(f: FileInfo)
    requires f.mimeType == "image/gif"
    ensures ProcessFile(f) == Success(ImageExtraction)
    ensures !ValidateFile(f).valid
  {
    assert f.mimeType[..|ImagePrefix|] == ImagePrefix;
    assert f.mimeType[6] == 'g';
    forall t | t in AllowedTypes
      ensures t != f.mimeType
    {
      assert |t| != |f.mimeType| || t[6] != 'g';
    }
  }
}
