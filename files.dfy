/**
 * The file rules of the submit handler (CV and profile photo) and the
 * extension check that the photo input's change handler runs before it
 * starts reading the file for a preview. A file input is modelled by the
 * name of its first file, or None when nothing is selected.
 */
module FileChecks {
  import opened Wrappers
  import opened Strings
  import opened Messages

  /** `name` ends with `ext`, letters compared without regard to case. */
  ghost predicate EndsWithIgnoringCase(name: string, ext: string) {
    |ext| <= |name| && forall k :: 0 <= k < |ext| ==> LowerChar(name[|name| - |ext| + k]) == ext[k]
  }

  /** `name.toLowerCase().endsWith('.pdf')`. */
  predicate IsPdfName(name: string) {
    EndsWith(ToLower(name), ".pdf")
  }

  /** `name.toLowerCase().endsWith('.jpg') || ….endsWith('.jpeg')`. */
  predicate IsJpegName(name: string) {
    EndsWith(ToLower(name), ".jpg") || EndsWith(ToLower(name), ".jpeg")
  }

  /** Lower-casing and then testing the suffix is a case-blind suffix test. */
  lemma LowerSuffix(name: string, ext: string)
    ensures EndsWith(ToLower(name), ext) <==> EndsWithIgnoringCase(name, ext)
  {
    var t := ToLower(name);
    if |ext| <= |name| {
      if EndsWith(t, ext) {
        forall k | 0 <= k < |ext| ensures LowerChar(name[|name| - |ext| + k]) == ext[k] {
          assert t[|t| - |ext|..][k] == t[|name| - |ext| + k];
        }
      }
      if EndsWithIgnoringCase(name, ext) {
        assert t[|t| - |ext|..] == ext;
      }
    }
  }

  /** The message for the CV input, or None when the CV is accepted. */
  function CvError(cv: Option<string>): Option<Message> {
    if cv.None? then Some(CvMissing)
    else if !IsPdfName(cv.value) then Some(CvNotPdf)
    else None
  }

  /** The message for the photo input, or None when the photo is accepted. */
  function PhotoError(photo: Option<string>): Option<Message> {
    if photo.None? then Some(PhotoMissing)
    else if !IsJpegName(photo.value) then Some(PhotoNotJpeg)
    else None
  }

  /** The CV rule: no file, a file not named `*.pdf` in any case, or no message at all. */
  lemma CvRule(cv: Option<string>)
    ensures CvError(cv) == Some(CvMissing) <==> cv.None?
    ensures CvError(cv) == Some(CvNotPdf) <==> cv.Some? && !EndsWithIgnoringCase(cv.value, ".pdf")
    ensures CvError(cv) == None <==> cv.Some? && EndsWithIgnoringCase(cv.value, ".pdf")
  {
    if cv.Some? {
      LowerSuffix(cv.value, ".pdf");
    }
  }

  /** The photo rule: no file, a file named neither `*.jpg` nor `*.jpeg` in any case, or no message. */
  lemma PhotoRule(photo: Option<string>)
    ensures PhotoError(photo) == Some(PhotoMissing) <==> photo.None?
    ensures PhotoError(photo) == Some(PhotoNotJpeg)
        <==> photo.Some? && !EndsWithIgnoringCase(photo.value, ".jpg") && !EndsWithIgnoringCase(photo.value, ".jpeg")
    ensures PhotoError(photo) == None
        <==> photo.Some? && (EndsWithIgnoringCase(photo.value, ".jpg") || EndsWithIgnoringCase(photo.value, ".jpeg"))
  {
    if photo.Some? {
      LowerSuffix(photo.value, ".jpg");
      LowerSuffix(photo.value, ".jpeg");
    }
  }

  /** A Word document is refused as a CV. */
  lemma CvRefusesWord()
    ensures CvError(Some("resume.docx")) == Some(CvNotPdf)
  {
    CvRule(Some("resume.docx"));
    assert LowerChar("resume.docx"[8]) != ".pdf"[1];
  }

  /** An upper-case PDF name is accepted as a CV. */
  lemma CvAcceptsUpperCase()
    ensures CvError(Some("CV.PDF")) == None
  {
    var t := ToLower("CV.PDF");
    assert t[2] == '.' && t[3] == 'p' && t[4] == 'd' && t[5] == 'f';
    assert t[|t| - 4..] == ".pdf";
  }

  /** What the photo input's change handler does with a new selection. */
  datatype Preview =
    | NoPreview             // nothing selected: the preview is only cleared
    | Refused(message: Message) // wrong extension: the photo error is shown, nothing is read
    | Load(name: string)    // the file is read and shown once the read completes

  /** The extension check of the preview handler. */
  function PreviewFor(photo: Option<string>): Preview {
    if photo.None? then NoPreview
    else if !IsJpegName(photo.value) then Refused(PhotoNotJpeg)
    else Load(photo.value)
  }

  /**
   * The preview handler and the submit handler agree: a selected file is
   * refused for preview exactly when submitting would report the photo's
   * extension, with the same message, and is loaded exactly when submitting
   * would report nothing for the photo.
   */
  lemma PreviewAgreesWithSubmit(photo: Option<string>)
    ensures PreviewFor(photo).Refused? <==> PhotoError(photo) == Some(PhotoNotJpeg)
    ensures PreviewFor(photo).Refused? ==> Some(PreviewFor(photo).message) == PhotoError(photo)
    ensures PreviewFor(photo).Load? <==> PhotoError(photo).None?
    ensures PreviewFor(photo).NoPreview? <==> PhotoError(photo) == Some(PhotoMissing)
  {
  }
}
