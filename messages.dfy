/**
 * The messages the submit handler (and the photo preview) attach to a
 * failing field. Entries of the error object carry a `Message`; `Text`
 * gives the exact wording shown next to the field.
 */
module Messages {
  datatype Message =
    | NameRequired
    | InvalidEmail
    | PasswordTooShort
    | PasswordsDiffer
    | TooYoung
    | CvMissing
    | CvNotPdf
    | PhotoMissing
    | PhotoNotJpeg
    | RulesNotAccepted

  function Text(m: Message): string {
    match m
    case NameRequired => "Please enter your full name."
    case InvalidEmail => "Please enter a valid email address."
    case PasswordTooShort => "Password must be at least 6 characters."
    case PasswordsDiffer => "Passwords do not match."
    case TooYoung => "You must be at least 18 years old to join."
    case CvMissing => "Please upload your CV (PDF)."
    case CvNotPdf => "CV must be a .pdf file."
    case PhotoMissing => "Please upload a profile photo (jpg/jpeg)."
    case PhotoNotJpeg => "Photo must be .jpg or .jpeg."
    case RulesNotAccepted => "You must accept the forum rules."
  }
}
