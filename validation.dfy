/**
 * The submit handler's rule checks (script.js, the `submit` listener): eight
 * fields are checked in a fixed order and every failing field gets one
 * message in an insertion-ordered error object. Here that object is a
 * sequence of (field, message) entries; `Lookup` reads it as a map and
 * `Ordered` says its keys follow the checking order.
 */
module Validation {
  import opened Wrappers
  import opened Strings
  import opened EmailCheck
  import opened AgeCheck
  import opened FileChecks
  import opened Messages

  /** The form fields, in the order the handler checks them. */
  datatype Field = Fullname | Email | Password | Password2 | Age | Cv | Photo | Agree

  /** The values the handler reads from the form; a file input is the name of its first file. */
  datatype Form = Form(
    fullname: string,
    email: string,
    password: string,
    password2: string,
    age: string,
    cv: Option<string>,
    photo: Option<string>,
    agree: bool)

  /** One key of the error object with its message. */
  type Entry = (Field, Message)

  const MinimumPasswordLength: nat := 6

  /** The position of a field in the checking order. */
  function Rank(f: Field): (r: nat)
    ensures r < 8
  {
    match f
    case Fullname => 0
    case Email => 1
    case Password => 2
    case Password2 => 3
    case Age => 4
    case Cv => 5
    case Photo => 6
    case Agree => 7
  }

  /** The id of the field's element, which the handler focuses on failure. */
  function FieldId(f: Field): string {
    match f
    case Fullname => "fullname"
    case Email => "email"
    case Password => "password"
    case Password2 => "password2"
    case Age => "age"
    case Cv => "cv"
    case Photo => "photo"
    case Agree => "agree"
  }

  /** `'#' + first` selects one element: different fields have different ids. */
  lemma FieldIdsDistinct(f: Field, g: Field)
    ensures FieldId(f) == FieldId(g) <==> f == g
  {
  }

  /** `!fullname.value.trim()`. */
  function CheckFullname(form: Form): Option<Message> {
    if Trim(form.fullname) == [] then Some(NameRequired) else None
  }

  /** `!validateEmail(email.value)`. */
  function CheckEmail(form: Form): Option<Message> {
    if !ValidateEmail(form.email) then Some(InvalidEmail) else None
  }

  /** `!password.value || password.value.length < 6`. */
  function CheckPassword(form: Form): Option<Message> {
    if form.password == [] || |form.password| < MinimumPasswordLength then Some(PasswordTooShort) else None
  }

  /** `password2.value !== password.value`. */
  function CheckPassword2(form: Form): Option<Message> {
    if form.password2 != form.password then Some(PasswordsDiffer) else None
  }

  /** `!age.value || isNaN(ageNum) || ageNum < 18`. */
  function CheckAge(form: Form): Option<Message> {
    if AgeRejected(form.age) then Some(TooYoung) else None
  }

  /** `!agree.checked`. */
  function CheckAgree(form: Form): Option<Message> {
    if !form.agree then Some(RulesNotAccepted) else None
  }

  /** The outcome of each rule of the handler, one per field. */
  datatype Outcomes = Outcomes(
    fullname: Option<Message>, email: Option<Message>, password: Option<Message>, password2: Option<Message>,
    age: Option<Message>, cv: Option<Message>, photo: Option<Message>, agree: Option<Message>)
  {
    /** The outcome for field `f`. */
    function Of(f: Field): Option<Message> {
      match f
      case Fullname => fullname
      case Email => email
      case Password => password
      case Password2 => password2
      case Age => age
      case Cv => cv
      case Photo => photo
      case Agree => agree
    }
  }

  /** Every rule of the handler applied to `form`. */
  function RunRules(form: Form): Outcomes {
    Outcomes(CheckFullname(form), CheckEmail(form), CheckPassword(form), CheckPassword2(form),
             CheckAge(form), CvError(form.cv), PhotoError(form.photo), CheckAgree(form))
  }

  /** One rule of the handler: the message for field `f`, or None when `f` passes. */
  function Check(form: Form, f: Field): Option<Message> {
    RunRules(form).Of(f)
  }

  /** Every rule passes. */
  predicate FormValid(form: Form) {
    forall f :: Check(form, f).None?
  }

  /** `f` fails and every field checked before it passes: the field that receives focus. */
  predicate IsFirstFailing(form: Form, f: Field) {
    Check(form, f).Some? && forall g :: Rank(g) < Rank(f) ==> Check(form, g).None?
  }

  /** The error object read as a map: the message of the first entry for `f`. */
  function Lookup(errors: seq<Entry>, f: Field): (r: Option<Message>)
    ensures r.None? <==> forall i :: 0 <= i < |errors| ==> errors[i].0 != f
    ensures r.Some? ==> exists i :: 0 <= i < |errors| && errors[i] == (f, r.value)
  {
    if errors == [] then None
    else if errors[0].0 == f then Some(errors[0].1)
    else
      var r := Lookup(errors[1..], f);
      assert forall i :: 1 <= i < |errors| ==> errors[i] == errors[1..][i - 1];
      r
  }

  /** Keys appear in checking order, so each key appears at most once. */
  predicate Ordered(errors: seq<Entry>) {
    forall i, j :: 0 <= i < j < |errors| ==> Rank(errors[i].0) < Rank(errors[j].0)
  }

  /** One `if` of the handler: `after` is `before` with the rule's message added when there is one. */
  ghost predicate Applied(before: seq<Entry>, after: seq<Entry>, f: Field, outcome: Option<Message>) {
    && (outcome.Some? ==> after == before + [(f, outcome.value)])
    && (outcome.None? ==> after == before)
  }

  /**
   * The error object reports `outcomes`: its keys are in checking order and,
   * read as a map, it gives each field's outcome.
   */
  ghost predicate Reports(errors: seq<Entry>, outcomes: Outcomes) {
    && Ordered(errors)
    && forall g :: Lookup(errors, g) == outcomes.Of(g)
  }

  /** `errors` holds exactly the outcomes of the fields ranked below `k`. */
  ghost predicate Covers(errors: seq<Entry>, outcomes: Outcomes, k: nat) {
    && Ordered(errors)
    && (forall i :: 0 <= i < |errors| ==> Rank(errors[i].0) < k)
    && forall g :: Lookup(errors, g) == (if Rank(g) < k then outcomes.Of(g) else None)
  }

  /** Applying the next rule extends what the error object covers. */
  lemma Extend(before: seq<Entry>, after: seq<Entry>, outcomes: Outcomes, f: Field)
    requires Covers(before, outcomes, Rank(f))
    requires Applied(before, after, f, outcomes.Of(f))
    ensures Covers(after, outcomes, Rank(f) + 1)
  {
    forall g ensures Lookup(after, g) == (if Rank(g) < Rank(f) + 1 then outcomes.Of(g) else None) {
      LookupAppend(before, after, g);
      assert Rank(g) == Rank(f) ==> g == f;
    }
  }

  /** The eight `if`s of the handler, applied in order to an empty object, cover every field. */
  lemma AllRulesApplied(outcomes: Outcomes, e0: seq<Entry>, e1: seq<Entry>, e2: seq<Entry>, e3: seq<Entry>,
                        e4: seq<Entry>, e5: seq<Entry>, e6: seq<Entry>, e7: seq<Entry>, e8: seq<Entry>)
    requires e0 == []
    requires Applied(e0, e1, Fullname, outcomes.fullname)
    requires Applied(e1, e2, Email, outcomes.email)
    requires Applied(e2, e3, Password, outcomes.password)
    requires Applied(e3, e4, Password2, outcomes.password2)
    requires Applied(e4, e5, Age, outcomes.age)
    requires Applied(e5, e6, Cv, outcomes.cv)
    requires Applied(e6, e7, Photo, outcomes.photo)
    requires Applied(e7, e8, Agree, outcomes.agree)
    ensures Reports(e8, outcomes)
  {
    Extend(e0, e1, outcomes, Fullname);
    Extend(e1, e2, outcomes, Email);
    Extend(e2, e3, outcomes, Password);
    Extend(e3, e4, outcomes, Password2);
    Extend(e4, e5, outcomes, Age);
    Extend(e5, e6, outcomes, Cv);
    Extend(e6, e7, outcomes, Photo);
    Extend(e7, e8, outcomes, Agree);
  }

  lemma LookupAppend(before: seq<Entry>, after: seq<Entry>, g: Field)
    requires |before| <= |after| <= |before| + 1 && after[..|before|] == before
    ensures Lookup(before, g).Some? ==> Lookup(after, g) == Lookup(before, g)
    ensures Lookup(before, g).None? ==>
      Lookup(after, g) == (if |after| > |before| && after[|before|].0 == g then Some(after[|before|].1) else None)
  {
    if before != [] {
      LookupAppend(before[1..], after[1..], g);
    }
  }

  /**
   * The submit handler's checks: starting from an empty error object, each
   * rule in turn adds its message when its field fails.
   */
  method CollectErrors(form: Form) returns (errors: seq<Entry>)
    ensures Reports(errors, RunRules(form))
  {
    errors := [];
    ghost var e0 := errors;
    if Trim(form.fullname) == [] {
      errors := errors + [(Fullname, NameRequired)];
    }
    ghost var e1 := errors;
    assert Applied(e0, e1, Fullname, CheckFullname(form));
    if !ValidateEmail(form.email) {
      errors := errors + [(Email, InvalidEmail)];
    }
    ghost var e2 := errors;
    assert Applied(e1, e2, Email, CheckEmail(form));
    if form.password == [] || |form.password| < MinimumPasswordLength {
      errors := errors + [(Password, PasswordTooShort)];
    }
    ghost var e3 := errors;
    assert Applied(e2, e3, Password, CheckPassword(form));
    if form.password2 != form.password {
      errors := errors + [(Password2, PasswordsDiffer)];
    }
    ghost var e4 := errors;
    assert Applied(e3, e4, Password2, CheckPassword2(form));
    if AgeRejected(form.age) {
      errors := errors + [(Age, TooYoung)];
    }
    ghost var e5 := errors;
    assert Applied(e4, e5, Age, CheckAge(form));
    if form.cv.None? {
      errors := errors + [(Cv, CvMissing)];
    } else if !IsPdfName(form.cv.value) {
      errors := errors + [(Cv, CvNotPdf)];
    }
    ghost var e6 := errors;
    assert Applied(e5, e6, Cv, CvError(form.cv));
    if form.photo.None? {
      errors := errors + [(Photo, PhotoMissing)];
    } else if !IsJpegName(form.photo.value) {
      errors := errors + [(Photo, PhotoNotJpeg)];
    }
    ghost var e7 := errors;
    assert Applied(e6, e7, Photo, PhotoError(form.photo));
    if !form.agree {
      errors := errors + [(Agree, RulesNotAccepted)];
    }
    assert Applied(e7, errors, Agree, CheckAgree(form));
    AllRulesApplied(RunRules(form), e0, e1, e2, e3, e4, e5, e6, e7, errors);
  }

  /**
   * What the handler does with the error object: it is empty exactly when
   * every rule passes, and its first key, the field that receives focus, is
   * the first failing field in checking order.
   */
  lemma ErrorObjectMeaning(errors: seq<Entry>, form: Form)
    requires Reports(errors, RunRules(form))
    ensures forall f :: Lookup(errors, f) == Check(form, f)
    ensures errors == [] <==> FormValid(form)
    ensures errors != [] ==> IsFirstFailing(form, errors[0].0)
  {
    if errors != [] {
      assert Lookup(errors, errors[0].0).Some?;
      FirstEntryFailsFirst(errors, form);
    }
  }

  /** The first key of an ordered error object that agrees with the rules is the first failing field. */
  lemma FirstEntryFailsFirst(errors: seq<Entry>, form: Form)
    requires Ordered(errors) && errors != []
    requires forall f :: Lookup(errors, f) == Check(form, f)
    ensures IsFirstFailing(form, errors[0].0)
  {
    forall g | Rank(g) < Rank(errors[0].0) ensures Check(form, g).None? {
      assert Lookup(errors, g).None?;
    }
  }

  /**
   * An ordered error object is determined by what it maps each field to: two
   * runs of the checks on the same form produce the same object.
   */
  lemma {:induction false} ErrorObjectDetermined(a: seq<Entry>, b: seq<Entry>)
    requires Ordered(a) && Ordered(b)
    requires forall f :: Lookup(a, f) == Lookup(b, f)
    ensures a == b
    decreases |a|
  {
    assert a != [] ==> Lookup(a, a[0].0).Some?;
    assert b != [] ==> Lookup(b, b[0].0).Some?;
    if a != [] {
      assert Lookup(a, a[0].0).Some?;
      var fa, fb := a[0].0, b[0].0;
      assert Rank(fb) <= Rank(fa) by {
        assert Lookup(b, fa).Some?;
      }
      assert Rank(fa) <= Rank(fb) by {
        assert Lookup(a, fb).Some?;
      }
      assert fa == fb;
      assert a[0] == b[0];
      forall g ensures Lookup(a[1..], g) == Lookup(b[1..], g) {
        if g == fa {
          assert forall i :: 0 <= i < |a| - 1 ==> a[1..][i] == a[i + 1];
          assert forall i :: 0 <= i < |b| - 1 ==> b[1..][i] == b[i + 1];
          assert Lookup(a[1..], g).None?;
          assert Lookup(b[1..], g).None?;
        } else {
          assert Lookup(a, g) == Lookup(a[1..], g);
          assert Lookup(b, g) == Lookup(b[1..], g);
        }
      }
      ErrorObjectDetermined(a[1..], b[1..]);
    }
  }

  /** The name rule: a message exactly when the name is blank. */
  lemma FullnameRule(form: Form)
    ensures Check(form, Fullname) == (if AllWhitespace(form.fullname) then Some(NameRequired) else None)
  {
    TrimEmptyIff(form.fullname);
  }

  /** The email rule: a message exactly when the address is not of shape `L@D.T`. */
  lemma EmailRule(form: Form)
    ensures Check(form, Email) == (if MatchesPattern(form.email) then None else Some(InvalidEmail))
  {
    ValidateEmailIffPattern(form.email);
  }

  /** The password rule: a message exactly when the password has fewer than six characters. */
  lemma PasswordRule(form: Form)
    ensures Check(form, Password) == (if |form.password| < 6 then Some(PasswordTooShort) else None)
  {
  }

  /**
   * The age rule on whole numbers: a message exactly below 18, and the same
   * message whether the age is missing, not a number or too low.
   */
  lemma AgeRule(form: Form, n: nat)
    ensures form.age == NatToString(n) ==> (Check(form, Age).None? <==> n >= MinimumAge)
    ensures Check(form, Age).Some? ==> Check(form, Age).value == TooYoung
    ensures form.age == [] ==> Check(form, Age) == Some(TooYoung)
  {
    assert Check(form, Age) == CheckAge(form);
    WholeAgeRule(n);
  }

  /** A form that passes every rule. */
  function SampleForm(): Form {
    Form("Ann", "Al@Ex.com", "abcdef", "abcdef", "18", Some("cv.pdf"), Some("me.jpg"), true)
  }

  /** The sample name is not blank. */
  lemma SampleFullname()
    ensures CheckFullname(SampleForm()) == None
  {
    TrimOfTrimmed("Ann");
  }

  /** The sample address has the shape of an address. */
  lemma SampleEmail()
    ensures CheckEmail(SampleForm()) == None
  {
    AcceptsMixedCase();
  }

  /** The sample age is the minimum age. */
  lemma SampleAge()
    ensures CheckAge(SampleForm()) == None
  {
    SeventeenAndEighteen();
  }

  /** The sample files are a PDF and a JPEG. */
  lemma SampleFiles()
    ensures CvError(SampleForm().cv) == None
    ensures PhotoError(SampleForm().photo) == None
  {
    assert ToLower("cv.pdf") == "cv.pdf";
    assert ToLower("me.jpg") == "me.jpg";
  }

  /** Every rule passes on the sample form. */
  lemma SampleOutcomes()
    ensures RunRules(SampleForm()) == Outcomes(None, None, None, None, None, None, None, None)
  {
    SampleFullname();
    SampleEmail();
    SampleAge();
    SampleFiles();
  }

  /** With a valid sample form the error object is empty. */
  lemma SampleFormValid(errors: seq<Entry>)
    requires Reports(errors, RunRules(SampleForm()))
    ensures FormValid(SampleForm())
    ensures errors == []
  {
    SampleOutcomes();
    ErrorObjectDetermined(errors, []);
  }

  /** Changing only the confirmation changes only the confirmation rule's outcome. */
  lemma OnlyConfirmationDepends(form: Form, password2: string)
    ensures RunRules(form.(password2 := password2))
         == RunRules(form).(password2 := CheckPassword2(form.(password2 := password2)))
  {
  }

  /** Every rule passing means every outcome is None. */
  lemma ValidOutcomes(form: Form)
    requires FormValid(form)
    ensures RunRules(form) == Outcomes(None, None, None, None, None, None, None, None)
  {
    var o := RunRules(form);
    forall f ensures o.Of(f).None? {
      assert Check(form, f).None?;
    }
    NoneEverywhere(o);
  }

  /** Outcomes with no message for any field carry no message at all. */
  lemma NoneEverywhere(o: Outcomes)
    requires forall f :: o.Of(f).None?
    ensures o == Outcomes(None, None, None, None, None, None, None, None)
  {
    assert o.Of(Fullname).None? && o.Of(Email).None? && o.Of(Password).None? && o.Of(Password2).None?;
    assert o.Of(Age).None? && o.Of(Cv).None? && o.Of(Photo).None? && o.Of(Agree).None?;
  }

  /** Outcomes with a single failure are reported by a single entry. */
  lemma SingleFailure(errors: seq<Entry>, m: Message)
    requires Reports(errors, Outcomes(None, None, None, None, None, None, None, None).(password2 := Some(m)))
    ensures errors == [(Password2, m)]
  {
    var expected := [(Password2, m)];
    assert forall g :: Lookup(expected, g) == Lookup(errors, g);
    ErrorObjectDetermined(errors, expected);
  }

  /**
   * A form that passes every rule, resubmitted with a different confirmation,
   * reports exactly one error: the confirmation's.
   */
  lemma OnlyConfirmationFails(form: Form, password2: string, errors: seq<Entry>)
    requires FormValid(form) && password2 != form.password
    requires Reports(errors, RunRules(form.(password2 := password2)))
    ensures errors == [(Password2, PasswordsDiffer)]
  {
    ValidOutcomes(form);
    OnlyConfirmationDepends(form, password2);
    SingleFailure(errors, PasswordsDiffer);
  }
}
