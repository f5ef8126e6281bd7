/**
 * The sign-up page as the script drives it: the form's values, the errors
 * shown next to the fields, the form message, the photo preview, the consent
 * banner and the page's cookies. The handlers are methods of `SignupPage`:
 * submitting the form, the reset button, choosing a photo, loading the page
 * (restoring the name and email, deciding on the banner) and the banner's
 * Accept and Decline buttons. What they leave in the cookie jar is stated on
 * the jar's order and values, and what a later lookup then reads is proved
 * by the lemmas below on those values.
 */
module Page {
  import opened Wrappers
  import opened Strings
  import opened Messages
  import opened UriCoding
  import opened Cookies
  import opened CookieJar
  import opened EmailCheck
  import opened FileChecks
  import opened Validation

  const NameCookie: string := "studeng_name"
  const EmailCookie: string := "studeng_email"
  const ConsentCookie: string := "studeng_cookie_consent"
  const Accepted: string := "accepted"
  const Declined: string := "declined"

  /** The three cookie names the page uses are valid and distinct. */
  lemma CookieNames()
    ensures ValidName(NameCookie) && ValidName(EmailCookie) && ValidName(ConsentCookie)
    ensures NameCookie != EmailCookie && NameCookie != ConsentCookie && EmailCookie != ConsentCookie
  {
    assert NameCookie[8] != EmailCookie[8];
    assert NameCookie[8] != ConsentCookie[8];
    assert EmailCookie[8] != ConsentCookie[8];
  }

  /** No cookie name of the page holds a `%`, so decoding leaves it as it is. */
  lemma NamesUnescaped()
    ensures '%' !in NameCookie && '%' !in EmailCookie && '%' !in ConsentCookie
  {
  }

  lemma AppendEmpty<T>(s: seq<T>)
    ensures s == s + []
  {
  }

  lemma Regroup3<T>(a: seq<T>, b: seq<T>, c: seq<T>, d: seq<T>)
    ensures a + b + c + d == a + (b + c + d)
  {
  }

  /** The form message box. */
  datatype Notice = Hidden | Failure | Success

  function NoticeText(n: Notice): string {
    match n
    case Hidden => ""
    case Failure => "Some fields need attention. Please fix errors and submit again."
    case Success => "Submission successful! Welcome to StudEng Forum \U{2014} a confirmation was simulated (no server)."
  }

  /**
   * `restoreNameEmailFromCookie`: a non-empty value read for a cookie replaces
   * the field; a value that does not decode throws before either field is
   * set.
   */
  function Restored(form: Form, name: CookieRead, email: CookieRead): (r: Form)
    ensures name.UriError? || email.UriError? ==> r == form
    ensures r == form.(fullname := r.fullname, email := r.email)
    ensures r.fullname != form.fullname ==> r.fullname != [] && name == Value(r.fullname)
    ensures r.email != form.email ==> r.email != [] && email == Value(r.email)
    ensures !email.UriError? && name.Value? && name.value != [] ==> r.fullname == name.value
    ensures !name.UriError? && email.Value? && email.value != [] ==> r.email == email.value
  {
    if name.UriError? || email.UriError? then form
    else
      form.(fullname := if name.Value? && name.value != [] then name.value else form.fullname,
            email := if email.Value? && email.value != [] then email.value else form.email)
  }

  /** `if (!consent)`: the banner is shown when there is no consent cookie or it is empty. */
  predicate ShowsBanner(consent: CookieRead) {
    consent.NoCookie? || consent == Value("")
  }

  /**
   * On any jar the handlers produce, the banner is shown exactly when no
   * consent cookie is stored or the one stored is empty.
   */
  lemma BannerShownIff(order: seq<string>, values: map<string, string>)
    requires WellFormed(order, values)
    ensures ShowsBanner(CookieValue(Header(order, values), ConsentCookie))
        <==> ConsentCookie !in order || values[ConsentCookie] == ""
  {
    CookieNames();
    HeaderLookup(order, values, ConsentCookie);
    if ConsentCookie in order {
      DecodeShortens(values[ConsentCookie]);
    }
  }

  /** The jar's order and values after a valid submit stores the name and email. */
  function SubmitOrder(order: seq<string>): seq<string> {
    Placed(Placed(order, NameCookie), EmailCookie)
  }

  function SubmitValues(values: map<string, string>, fullname: string, email: string): map<string, string> {
    values[NameCookie := Encode(Trim(fullname))][EmailCookie := Encode(Trim(email))]
  }

  /** A valid form has a full name that is not blank and an accepted email. */
  lemma ValidFormStores(form: Form)
    requires FormValid(form)
    ensures Trim(form.fullname) != [] && ValidateEmail(form.email)
  {
    assert Check(form, Fullname).None? && Check(form, Email).None?;
  }

  /** Storing the name and email keeps the jar well formed. */
  lemma SubmitWellFormed(order: seq<string>, values: map<string, string>, fullname: string, email: string)
    requires WellFormed(order, values)
    ensures WellFormed(SubmitOrder(order), SubmitValues(values, fullname, email))
  {
    CookieNames();
    SetWellFormed(order, values, NameCookie, Trim(fullname));
    SetWellFormed(Placed(order, NameCookie), values[NameCookie := Encode(Trim(fullname))], EmailCookie, Trim(email));
  }

  /**
   * After a valid submit the name and email cookies read as the trimmed
   * full name and the email as typed (an accepted email has nothing to trim).
   */
  lemma SubmitStores(order: seq<string>, values: map<string, string>, fullname: string, email: string)
    requires WellFormed(order, values) && ValidateEmail(email)
    ensures var header := Header(SubmitOrder(order), SubmitValues(values, fullname, email));
      && CookieValue(header, NameCookie) == Value(Trim(fullname))
      && CookieValue(header, EmailCookie) == Value(email)
  {
    CookieNames();
    AcceptedIsTrimmed(email);
    var order', values' := SubmitOrder(order), SubmitValues(values, fullname, email);
    SubmitWellFormed(order, values, fullname, email);
    HeaderLookup(order', values', NameCookie);
    HeaderLookup(order', values', EmailCookie);
    ReadEncoded(Trim(fullname));
    ReadEncoded(email);
  }

  /** Storing the name and email changes what no other cookie reads. */
  lemma SubmitKeepsOthers(order: seq<string>, values: map<string, string>, fullname: string, email: string, other: string)
    requires WellFormed(order, values)
    requires ValidName(other) && other != NameCookie && other != EmailCookie
    ensures CookieValue(Header(SubmitOrder(order), SubmitValues(values, fullname, email)), other)
         == CookieValue(Header(order, values), other)
  {
    CookieNames();
    SubmitWellFormed(order, values, fullname, email);
    HeaderLookup(SubmitOrder(order), SubmitValues(values, fullname, email), other);
    HeaderLookup(order, values, other);
  }

  /**
   * Loading the page again after a valid submit puts the trimmed full name
   * and the email back into whatever the form then holds.
   */
  lemma ReloadRestores(order: seq<string>, values: map<string, string>, fullname: string, email: string, later: Form)
    requires WellFormed(order, values) && Trim(fullname) != [] && ValidateEmail(email)
    ensures var header := Header(SubmitOrder(order), SubmitValues(values, fullname, email));
      Restored(later, CookieValue(header, NameCookie), CookieValue(header, EmailCookie))
        == later.(fullname := Trim(fullname), email := email)
  {
    SubmitStores(order, values, fullname, email);
    AcceptedIsTrimmed(email);
  }

  /** The jar after Accept. */
  function AcceptOrder(order: seq<string>): seq<string> {
    Placed(order, ConsentCookie)
  }

  function AcceptValues(values: map<string, string>): map<string, string> {
    values[ConsentCookie := Encode(Accepted)]
  }

  /** After Accept the consent reads `accepted`, the banner stays hidden on later loads, and no other cookie changes. */
  lemma AcceptRecords(order: seq<string>, values: map<string, string>, other: string)
    requires WellFormed(order, values) && ValidName(other) && other != ConsentCookie
    ensures WellFormed(AcceptOrder(order), AcceptValues(values))
    ensures var header := Header(AcceptOrder(order), AcceptValues(values));
      && CookieValue(header, ConsentCookie) == Value(Accepted)
      && !ShowsBanner(CookieValue(header, ConsentCookie))
      && CookieValue(header, other) == CookieValue(Header(order, values), other)
  {
    CookieNames();
    SetThenGet(order, values, ConsentCookie, Accepted);
    SetKeepsOthers(order, values, ConsentCookie, Accepted, other);
  }

  /**
   * With the script's own `getCookie`, Accept does not always hide the banner
   * for good: after a first valid submit with a full name `x;studeng_cookie_consent=`
   * (`x` any text without `;` or whitespace at its ends) and then Accept, the
   * whole header is decoded before it is split, the name's value yields a
   * pair `studeng_cookie_consent=` ahead of the real one, and the empty
   * consent it reads shows the banner again on the next load. The corrected
   * lookup reads `accepted`.
   */
  lemma ConsentForgedAsWritten(x: string, email: string)
    requires ValidRaw(x) && x != [] && !IsWhitespace(x[0])
    ensures var header := Header(AcceptOrder(SubmitOrder([])),
                                 AcceptValues(SubmitValues(map[], x + ";" + ConsentCookie + "=", email)));
      && CookieValueAsWritten(header, ConsentCookie) == Value("")
      && ShowsBanner(CookieValueAsWritten(header, ConsentCookie))
      && !ShowsBanner(CookieValue(header, ConsentCookie))
  {
    var fullname := x + ";" + ConsentCookie + "=";
    CookieNames();
    NamesUnescaped();
    assert fullname[0] == x[0] && fullname[|fullname| - 1] == '=';
    var rest := HeaderAfterName(fullname, email);
    AppendEmpty(fullname);
    ForgedFirst(NameCookie, ConsentCookie, x, "", rest);
    SubmitWellFormed([], map[], fullname, email);
    AcceptRecords(SubmitOrder([]), SubmitValues(map[], fullname, email), NameCookie);
  }

  /**
   * The header after a first submit and then Accept: the name's pair, then
   * the other two, which decode.
   */
  lemma HeaderAfterName(fullname: string, email: string) returns (rest: string)
    requires fullname != [] && !IsWhitespace(fullname[0]) && !IsWhitespace(fullname[|fullname| - 1])
    ensures Header(AcceptOrder(SubmitOrder([])), AcceptValues(SubmitValues(map[], fullname, email)))
         == Pair(NameCookie, Encode(fullname)) + ";" + rest
    ensures Decode(rest).Some?
  {
    var stored := Encode(Trim(email));
    var others := Pair(EmailCookie, stored) + "; " + Pair(ConsentCookie, Encode(Accepted));
    rest := " " + others;
    CookieNames();
    NamesUnescaped();
    SubmittedThenAccepted(fullname, email);
    HeaderOfThree(NameCookie, EmailCookie, ConsentCookie, Encode(fullname), stored, Encode(Accepted));
    Regroup3(" ", Pair(EmailCookie, stored), "; ", Pair(ConsentCookie, Encode(Accepted)));
    DecodeHeaderOfTwo(EmailCookie, ConsentCookie, Trim(email), Accepted);
    DecodePlainThen(" ", others);
  }

  /** A first submit and then Accept leave the name, the email and the consent, in that order. */
  lemma SubmittedThenAccepted(fullname: string, email: string)
    requires fullname != [] && !IsWhitespace(fullname[0]) && !IsWhitespace(fullname[|fullname| - 1])
    ensures AcceptOrder(SubmitOrder([])) == [NameCookie, EmailCookie, ConsentCookie]
    ensures AcceptValues(SubmitValues(map[], fullname, email))
         == map[NameCookie := Encode(fullname), EmailCookie := Encode(Trim(email)), ConsentCookie := Encode(Accepted)]
  {
    CookieNames();
    TrimOfTrimmed(fullname);
  }

  /** The jar after the reset button. */
  function ResetOrder(order: seq<string>): seq<string> {
    Removed(Removed(order, NameCookie), EmailCookie)
  }

  function ResetValues(values: map<string, string>): map<string, string> {
    values - {NameCookie} - {EmailCookie}
  }

  /** The jar after Decline: consent set, then the name and the email erased. */
  function DeclineOrder(order: seq<string>): seq<string> {
    ResetOrder(Placed(order, ConsentCookie))
  }

  function DeclineValues(values: map<string, string>): map<string, string> {
    ResetValues(values[ConsentCookie := Encode(Declined)])
  }

  /** Decline keeps the jar well formed. */
  lemma DeclineWellFormed(order: seq<string>, values: map<string, string>)
    requires WellFormed(order, values)
    ensures WellFormed(DeclineOrder(order), DeclineValues(values))
  {
    CookieNames();
    var order1, values1 := Placed(order, ConsentCookie), values[ConsentCookie := Encode(Declined)];
    SetWellFormed(order, values, ConsentCookie, Declined);
    EraseWellFormed(order1, values1, NameCookie);
    EraseWellFormed(Removed(order1, NameCookie), values1 - {NameCookie}, EmailCookie);
  }

  /**
   * After Decline the consent reads `declined`, so the banner stays hidden
   * on later loads, and the name and email cookies are gone.
   */
  lemma DeclineForgets(order: seq<string>, values: map<string, string>)
    requires WellFormed(order, values)
    ensures var header := Header(DeclineOrder(order), DeclineValues(values));
      && CookieValue(header, ConsentCookie) == Value(Declined)
      && !ShowsBanner(CookieValue(header, ConsentCookie))
      && CookieValue(header, NameCookie) == NoCookie
      && CookieValue(header, EmailCookie) == NoCookie
  {
    CookieNames();
    var order', values' := DeclineOrder(order), DeclineValues(values);
    DeclineWellFormed(order, values);
    assert ConsentCookie in order' && values'[ConsentCookie] == Encode(Declined);
    assert NameCookie !in order' && EmailCookie !in order';
    HeaderLookup(order', values', ConsentCookie);
    HeaderLookup(order', values', NameCookie);
    HeaderLookup(order', values', EmailCookie);
    ReadEncoded(Declined);
  }

  /** Decline changes what no other cookie reads. */
  lemma DeclineKeepsOthers(order: seq<string>, values: map<string, string>, other: string)
    requires WellFormed(order, values) && ValidName(other)
    requires other != ConsentCookie && other != NameCookie && other != EmailCookie
    ensures CookieValue(Header(DeclineOrder(order), DeclineValues(values)), other)
         == CookieValue(Header(order, values), other)
  {
    CookieNames();
    DeclineWellFormed(order, values);
    HeaderLookup(DeclineOrder(order), DeclineValues(values), other);
    HeaderLookup(order, values, other);
  }

  /** After a reset the name and email cookies are gone and no other cookie changes. */
  lemma ResetForgets(order: seq<string>, values: map<string, string>, other: string)
    requires WellFormed(order, values) && ValidName(other) && other != NameCookie && other != EmailCookie
    ensures WellFormed(ResetOrder(order), ResetValues(values))
    ensures var header := Header(ResetOrder(order), ResetValues(values));
      && CookieValue(header, NameCookie) == NoCookie
      && CookieValue(header, EmailCookie) == NoCookie
      && CookieValue(header, other) == CookieValue(Header(order, values), other)
  {
    CookieNames();
    var order', values' := ResetOrder(order), ResetValues(values);
    EraseWellFormed(order, values, NameCookie);
    EraseWellFormed(Removed(order, NameCookie), values - {NameCookie}, EmailCookie);
    HeaderLookup(order', values', NameCookie);
    HeaderLookup(order', values', EmailCookie);
    HeaderLookup(order', values', other);
    HeaderLookup(order, values, other);
  }

  /** A first visit, with no cookies, shows the banner and restores nothing. */
  lemma FirstVisit(form: Form)
    ensures ShowsBanner(CookieValue(Header([], map[]), ConsentCookie))
    ensures Restored(form, CookieValue(Header([], map[]), NameCookie), CookieValue(Header([], map[]), EmailCookie)) == form
  {
    CookieNames();
    HeaderLookup([], map[], ConsentCookie);
    HeaderLookup([], map[], NameCookie);
    HeaderLookup([], map[], EmailCookie);
  }

  class SignupPage {
    const jar: Jar
    /** The current values of the form's inputs. */
    var form: Form
    /** The errors shown next to the fields, in the order they were reported. */
    var shown: seq<Entry>
    /** The field that last received focus from the submit handler. */
    var focus: Option<Field>
    var notice: Notice
    var preview: Preview
    var bannerVisible: bool

    ghost predicate Valid()
      reads this, jar
    {
      jar.Valid()
    }

    /** The page before its handlers run: nothing shown, the banner hidden. */
    constructor (jar: Jar, form: Form)
      requires jar.Valid()
      ensures Valid() && this.jar == jar && this.form == form
      ensures shown == [] && focus == None && notice == Hidden && preview == NoPreview && !bannerVisible
    {
      this.jar := jar;
      this.form := form;
      shown := [];
      focus := None;
      notice := Hidden;
      preview := NoPreview;
      bannerVisible := false;
    }

    /**
     * The submit handler: the errors are rebuilt from nothing and shown; with
     * any error the failure message is shown, the first failing field gets the
     * focus and no cookie is written; otherwise the trimmed name and email are
     * stored and the success message is shown.
     */
    method Submit()
      requires Valid()
      modifies this, jar
      ensures unchanged(this`form, this`preview, this`bannerVisible)
      ensures Valid()
      ensures Reports(shown, RunRules(form))
      ensures shown != [] ==> notice == Failure && focus == Some(shown[0].0) && unchanged(jar)
      ensures shown == [] ==>
        && notice == Success && unchanged(this`focus)
        && jar.order == SubmitOrder(old(jar.order)) && jar.values == SubmitValues(old(jar.values), form.fullname, form.email)
    {
      ReportErrors();
      if shown == [] {
        StoreNameEmail(form.fullname, form.email);
        notice := Success;
      }
    }

    /**
     * The checks of the submit handler: the message is hidden, the errors
     * rebuilt, and what it shows when one fails.
     */
    method ReportErrors()
      requires Valid()
      modifies this
      ensures unchanged(this`form, this`preview, this`bannerVisible)
      ensures Valid()
      ensures Reports(shown, RunRules(form))
      ensures shown != [] ==> notice == Failure && focus == Some(shown[0].0)
      ensures shown == [] ==> notice == Hidden && unchanged(this`focus)
    {
      notice := Hidden;
      var errors := CollectErrors(form);
      shown := errors;
      if errors != [] {
        notice := Failure;
        focus := Some(errors[0].0);
      }
    }

    /** The two `setCookie` calls of a valid submit. */
    method StoreNameEmail(fullname: string, email: string)
      requires Valid()
      modifies jar
      ensures Valid()
      ensures jar.order == SubmitOrder(old(jar.order)) && jar.values == SubmitValues(old(jar.values), fullname, email)
    {
      CookieNames();
      jar.SetCookie(NameCookie, Trim(fullname));
      jar.SetCookie(EmailCookie, Trim(email));
    }

    /** The reset button: the name and email cookies are erased, the preview emptied and the message hidden. */
    method Reset()
      requires Valid()
      modifies this, jar
      ensures unchanged(this`form, this`shown, this`focus, this`bannerVisible)
      ensures preview == NoPreview && notice == Hidden
      ensures Valid()
      ensures jar.order == ResetOrder(old(jar.order)) && jar.values == ResetValues(old(jar.values))
    {
      ForgetNameEmail();
      preview := NoPreview;
      notice := Hidden;
    }

    /** A new photo selection: the preview handler's extension check decides what is shown. */
    method ChoosePhoto(photo: Option<string>)
      requires Valid()
      modifies this
      ensures unchanged(this`shown, this`focus, this`notice, this`bannerVisible)
      ensures Valid()
      ensures form == old(form).(photo := photo) && preview == PreviewFor(photo)
    {
      form := form.(photo := photo);
      preview := PreviewFor(photo);
    }

    /** `restoreNameEmailFromCookie`. */
    method RestoreNameEmail()
      requires Valid()
      modifies this
      ensures unchanged(this`shown, this`focus, this`notice, this`preview, this`bannerVisible)
      ensures Valid()
      ensures form == Restored(old(form), CookieValue(jar.Text(), NameCookie), CookieValue(jar.Text(), EmailCookie))
    {
      var name := jar.GetCookie(NameCookie);
      var email := jar.GetCookie(EmailCookie);
      if name.UriError? || email.UriError? {
        return;
      }
      if name.Value? && name.value != [] {
        form := form.(fullname := name.value);
      }
      if email.Value? && email.value != [] {
        form := form.(email := email.value);
      }
    }

    /** The banner's load handler: the banner is shown when no consent has been given. */
    method ShowConsentBanner()
      requires Valid()
      modifies this
      ensures unchanged(this`form, this`shown, this`focus, this`notice, this`preview)
      ensures Valid()
      ensures bannerVisible == (old(bannerVisible) || ShowsBanner(CookieValue(jar.Text(), ConsentCookie)))
    {
      var consent := jar.GetCookie(ConsentCookie);
      if ShowsBanner(consent) {
        bannerVisible := true;
      }
    }

    /** Page load: the form's handler restores the name and email, then the banner's handler runs. */
    method Load()
      requires Valid()
      modifies this
      ensures unchanged(this`shown, this`focus, this`notice, this`preview)
      ensures Valid()
      ensures form == Restored(old(form), CookieValue(jar.Text(), NameCookie), CookieValue(jar.Text(), EmailCookie))
      ensures bannerVisible == (old(bannerVisible) || ShowsBanner(CookieValue(jar.Text(), ConsentCookie)))
    {
      RestoreNameEmail();
      ShowConsentBanner();
    }

    /** The banner's Accept button. */
    method Accept()
      requires Valid()
      modifies this, jar
      ensures unchanged(this`form, this`shown, this`focus, this`notice, this`preview)
      ensures !bannerVisible
      ensures Valid()
      ensures jar.order == AcceptOrder(old(jar.order)) && jar.values == AcceptValues(old(jar.values))
    {
      CookieNames();
      jar.SetCookie(ConsentCookie, Accepted);
      bannerVisible := false;
    }

    /** The banner's Decline button. */
    method Decline()
      requires Valid()
      modifies this, jar
      ensures unchanged(this`form, this`shown, this`focus, this`notice, this`preview)
      ensures !bannerVisible
      ensures Valid()
      ensures jar.order == DeclineOrder(old(jar.order)) && jar.values == DeclineValues(old(jar.values))
    {
      CookieNames();
      jar.SetCookie(ConsentCookie, Declined);
      bannerVisible := false;
      ForgetNameEmail();
    }

    /** `eraseCookie` of the name and then of the email, as the reset button and Decline do. */
    method ForgetNameEmail()
      requires Valid()
      modifies jar
      ensures Valid()
      ensures jar.order == ResetOrder(old(jar.order)) && jar.values == ResetValues(old(jar.values))
    {
      jar.EraseCookie(NameCookie);
      jar.EraseCookie(EmailCookie);
    }
  }
}
