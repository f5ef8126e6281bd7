# Sign-up page script, modelled in Dafny

This project models `script.js`, the script of the StudEng Forum sign-up
page. It covers:

- the submit handler's validation of the join form: full name, email,
  password, confirmation, age, CV, photo and the rules checkbox;
- `validateEmail`;
- the photo preview's extension check;
- the cookie helpers `setCookie`, `getCookie` and `eraseCookie`;
- restoring the name and email from cookies on page load;
- the reset button;
- the cookie-consent banner with its Accept and Decline buttons.

The modules follow the script's parts:

| module | file | what it holds |
|---|---|---|
| `Strings` | strings.dfy | `trim` with ECMAScript's whitespace, `toLowerCase` on ASCII letters, `startsWith`/`endsWith`, `indexOf`, and `split` with its inverse `Join` |
| `UriCoding` | uri.dfy | `encodeURIComponent` and `decodeURIComponent`, with UTF-8 escapes and the URIError as `None` |
| `Messages` | messages.dfy | the messages shown next to failing fields, with their exact texts |
| `EmailCheck` | email.dfy | `validateEmail`, plus the pattern `^[^\s@]+@[^\s@]+\.[^\s@]+$` stated as a predicate over positions |
| `AgeCheck` | age.dfy | `Number(age.value)` read as an exact decimal literal, and the comparison with 18 decided after rounding that literal to the nearest double |
| `FileChecks` | files.dfy | the CV and photo rules and the preview's extension check |
| `Validation` | validation.dfy | the form, the eight rules, the error object, and `CollectErrors`, the handler's chain of `if`s as a method |
| `Cookies` | cookies.dfy | `document.cookie` as a header string, and `getCookie` both as written and corrected |
| `CookieJar` | cookie_jar.dfy | the browser's cookie store as a class over a creation order and a value map |
| `Page` | page.dfy | the page as a class `SignupPage`, whose methods are the handlers |

The error object is modelled as a sequence of `(field, message)` entries in
insertion order.

- `Validation.CollectErrors` promises `Reports(errors, RunRules(form))`: the
  keys appear in checking order, and, read as a map, the object gives every
  field the outcome of its rule.
- `Validation.ErrorObjectMeaning` turns that into what the handler relies
  on. The object is empty exactly when the form is valid, and its first key,
  the field that gets focus, is the first failing field.
- `Validation.ErrorObjectDetermined` shows that the object is fixed by the
  form, so validating the same form twice gives the same object.

`Page.SignupPage.Submit` states its result through `Reports`, and these
lemmas give it its meaning. On an invalid form the jar is unchanged. On a
valid one the jar holds the trimmed name and email, and
`Page.SubmitStores` / `Page.ReloadRestores` show what a later lookup reads with the corrected `getCookie`.

Each cookie-writing handler states its new jar as a function of the old one
(`SubmitOrder`/`SubmitValues`, `AcceptOrder`/`AcceptValues`,
`DeclineOrder`/`DeclineValues`, `ResetOrder`/`ResetValues`). The lemmas
beside them say what the corrected `getCookie` then reads for every cookie name.

## Model

| member | source | states |
|---|---|---|
| Strings.Trim | script.js:71 | `trim` leaves no whitespace at either end and never lengthens the text (what it keeps is pinned by `Strings.TrimIsSlice`) |
| Strings.TrimIsSlice | script.js:71 | `trim` removes only a run of whitespace at the start and a run at the end: the result is the contiguous middle of the text, and everything cut on either side is whitespace |
| Strings.TrimTrailingSpace | script.js:71 | a space added at the end does not change what `trim` gives |
| Strings.TrimEmptyIff | script.js:71 | `!s.trim()` holds exactly when every character of `s` is whitespace |
| Strings.IndexOf | script.js:174 | `indexOf(c)` is absent exactly when `c` does not occur; otherwise it is the first position holding `c` |
| Strings.LowerChar | script.js:143 | lower-casing a character yields no capital A-Z, and a character is whitespace, `@` or `.` exactly when its lower-cased form is |
| Strings.ToLower | script.js:86 | `toLowerCase` keeps the length and lower-cases every character in its place |
| Strings.Split | script.js:174 | `split(';')` gives at least one part, no part holds the separator, and joining the parts with it gives the text back |
| Strings.SplitFirst | script.js:174 | a text `p;rest` with no `;` in `p` splits into `p` followed by the parts of `rest` |
| Strings.SplitJoin | script.js:174 | splitting joined parts that hold no separator gives those parts back |
| UriCoding.Encode | script.js:168 | `encodeURIComponent` emits only unreserved characters and `%`, so a stored value has no `;` and no whitespace |
| UriCoding.DecodeEncode | script.js:168-173 | `decodeURIComponent(encodeURIComponent(s)) == s` for every string |
| UriCoding.DecodeEncodeThen | script.js:168-173 | decoding an encoded prefix gives that prefix, followed by whatever the rest decodes to |
| UriCoding.EncodeConcat | script.js:168 | encoding works character by character: the encoding of `a + b` is the encoding of `a` followed by that of `b` |
| UriCoding.Utf8RoundTrip | script.js:168-173 | the UTF-8 bytes of a character announce their own count and decode back to that character |
| UriCoding.DecodeShortens | script.js:173 | `decodeURIComponent` never lengthens a text, and gives the empty text exactly for the empty text |
| UriCoding.DecodePlain | script.js:173 | a text without `%` decodes to itself |
| UriCoding.MalformedEscape | script.js:173 | a `%` not followed by two hex digits makes `decodeURIComponent` throw |
| UriCoding.StrayByte | script.js:173 | an escape whose byte cannot start a UTF-8 sequence makes `decodeURIComponent` throw |
| EmailCheck.ShapeIffPattern | script.js:142 | the executable shape test accepts exactly the texts `L@D.T` where `L`, `D` and `T` are non-empty runs without whitespace or `@` |
| EmailCheck.LowerCaseIrrelevant | script.js:143 | lower-casing before the test changes nothing: the pattern matches the lower-cased text exactly when it matches the text |
| EmailCheck.ValidateEmailIffPattern | script.js:141-144 | `validateEmail(email)` is true exactly when `email` has the shape `L@D.T` |
| EmailCheck.AcceptedIsTrimmed | script.js:142 | an accepted address is non-empty and already trimmed, so the `trim()` before storing it changes nothing |
| EmailCheck.AcceptsMixedCase | script.js:141-144 | `Al@Ex.com` is accepted |
| EmailCheck.RefusesDotlessDomain | script.js:141-144 | `al@ex` is refused |
| EmailCheck.RefusesLeadingDot | script.js:141-144 | `a@.com` is refused |
| EmailCheck.RefusesSpace | script.js:141-144 | `a b@c.de` is refused |
| EmailCheck.NoPatternWithoutDot | script.js:142 | no text without a `.` is accepted |
| AgeCheck.ParseNumber | script.js:79 | `Number` of a blank or all-whitespace field is the literal 0 |
| AgeCheck.ParseDigits | script.js:79 | `Number` reads a run of digits as the literal with that run's value and no digits after the point; the rounding to a double happens in the comparison |
| AgeCheck.DecimalWithPoint | script.js:79 | `Number` reads `whole.frac` as the exact literal whose digits are `whole` then `frac`, with as many digits after the point as `frac` has |
| AgeCheck.ParseOfTrimmed | script.js:79 | on a text with no whitespace at either end, `Number` skips the trimming step |
| AgeCheck.BelowMinimumExact | script.js:79-80 | a non-negative literal rounds to a double below 18 exactly when its exact value is below `18 - 2^-49`, the midpoint between 18 and the double below it |
| AgeCheck.NinesParse | script.js:79 | `Number("17." + n nines)` reads the literal `18 * 10^n - 1` with `n` digits after the point |
| AgeCheck.NinesBelowEighteen | script.js:79-80 | `17.` followed by `n` nines is accepted exactly when `n >= 15`: from fifteen nines on, the value rounds to 18 |
| AgeCheck.WholeAgeRule | script.js:79-82 | a whole number typed as its numeral is accepted exactly when it is at least 18 |
| AgeCheck.SeventeenAndEighteen | script.js:79-82 | `"17"` is refused and `"18"` accepted |
| AgeCheck.EmptyAndNotANumber | script.js:79-82 | an empty field and `"abc"` (NaN) are refused |
| AgeCheck.BlankAgeRejected | script.js:79-80 | an age field holding only whitespace is refused: `Number` reads it as 0, which is below 18 |
| AgeCheck.NegativeAgeRejected | script.js:79-80 | every negative whole number is refused |
| AgeCheck.SurroundingSpaceIgnored | script.js:79-80 | spaces around the age do not change whether it is refused |
| FileChecks.LowerSuffix | script.js:86-87 | lower-casing and then testing the ending is the same as a case-blind test of the ending |
| FileChecks.CvRule | script.js:83-88 | the CV message is "upload" exactly when no file is chosen, "must be .pdf" exactly when the name does not end in `.pdf` in any case, and absent otherwise |
| FileChecks.PhotoRule | script.js:89-96 | the photo message is "upload" exactly when no file is chosen, "must be .jpg or .jpeg" exactly when the name ends in neither in any case, and absent otherwise |
| FileChecks.CvRefusesWord | script.js:83-88 | `resume.docx` is refused as a CV with the "must be .pdf" message |
| FileChecks.CvAcceptsUpperCase | script.js:83-88 | `CV.PDF` is accepted as a CV |
| FileChecks.PreviewAgreesWithSubmit | script.js:146-154 | the preview refuses a file exactly when submit reports its extension, with the same message, and loads it exactly when submit accepts it |
| Validation.Lookup | script.js:100 | reading a key of the error object gives nothing exactly when no entry has that key; otherwise it gives a message some entry holds |
| Validation.CollectErrors | script.js:69-97 | the error object built from nothing holds each key at most once, in checking order, and gives each field its rule's outcome |
| Validation.ErrorObjectMeaning | script.js:99-104 | the error object is empty exactly when every rule passes, and its first key is the first failing field |
| Validation.FieldIdsDistinct | script.js:102-103 | the selector `'#' + first` is different for different fields, so focus goes to the first failing field's own element |
| Validation.FirstEntryFailsFirst | script.js:102-104 | the first key of an ordered error object fails, and every field checked before it passes |
| Validation.ErrorObjectDetermined | script.js:69-97 | two ordered error objects that agree on every key are equal, so validating a form twice gives the same object |
| Validation.FullnameRule | script.js:71 | the name message is reported exactly when the name is all whitespace |
| Validation.EmailRule | script.js:72 | the email message is reported exactly when the address does not have the shape `L@D.T` |
| Validation.PasswordRule | script.js:73-75 | the password message is reported exactly when the password has fewer than six characters (the empty one included) |
| Validation.AgeRule | script.js:79-82 | for a whole number the age passes exactly when it is at least 18; a missing age fails; the only age message is the "at least 18" one |
| Validation.OnlyConfirmationDepends | script.js:76-78 | changing the confirmation changes no rule's outcome except the confirmation's |
| Validation.OnlyConfirmationFails | script.js:76-78 | a valid form resubmitted with a different confirmation reports exactly one error: "Passwords do not match." |
| Validation.SampleFormValid | script.js:69-99 | a complete sample form passes every rule, and its error object is empty |
| Cookies.FirstWithPrefix | script.js:175-177 | the first part that starts with `name=`: none exactly when no part does, else a part that does with none before it |
| Cookies.FindValue | script.js:175-179 | `getCookie`'s loop returns what follows `name=` in the first trimmed part that starts with it, or null |
| Cookies.GetCookieAsWritten | script.js:171-180 | `getCookie` as written: a URIError when the whole header does not decode, else the lookup on the decoded header |
| Cookies.GetCookie | script.js:171-180 | the corrected `getCookie`: look the name up in the raw header, then decode only the value found |
| Cookies.HeaderParts | script.js:174-176 | splitting the header of a well-formed jar on `;` and trimming gives back exactly its `name=value` pairs |
| Cookies.HeaderLookup | script.js:171-180 | on the header of a well-formed jar, a name the jar lacks reads as null and a name it holds reads as its decoded value |
| Cookies.ReadEncoded | script.js:168-173 | a value stored by `setCookie` reads back unchanged |
| Cookies.EncodedIsValidRaw | script.js:168 | a value encoded by `setCookie` is a valid stored value: no character of it is `;` or whitespace |
| Cookies.AgreeWithoutEscapes | script.js:171-180 | on a header without `%` the script's lookup and the corrected one agree |
| Cookies.TwoCookies | script.js:171-180 | the corrected lookup reads each of two stored cookies back as stored |
| Cookies.ForgedAsWritten | script.js:173-177 | with `x;b=y` stored under `a` before `b`, the script's `getCookie(b)` returns `y` and `getCookie(a)` returns `x` |
| Cookies.ForgedFirst | script.js:173-177 | whenever the value stored under the first cookie `a` is `x;b=y`, the script's `getCookie(b)` returns `y`, read from inside `a`'s value, whatever follows |
| Cookies.HeaderOfThree | script.js:174 | the header of three cookies is the first pair, `;`, then the other two each after a space |
| Cookies.ForgedPair | script.js:173-174 | the same jar, stated on its header: the script's lookup reads `y` and `x`, the corrected one reads `z` and `x;b=y` |
| CookieJar.Placed | script.js:168 | after setting `name`, an existing name leaves the order as it was, and a new name is appended at the end |
| CookieJar.Removed | script.js:183 | after erasing `name`, the order holds exactly the other names, and is unchanged when `name` was absent |
| CookieJar.RemovedKeepsOrder | script.js:183 | erasing a stored name cuts it out of its place: the names before and after it keep their relative order |
| CookieJar.RemovedDistinct | script.js:183 | erasing a cookie keeps the names distinct |
| CookieJar.SetThenGet | script.js:165-169 | after `setCookie(name, v)` the jar is well formed and the corrected lookup of `name` reads `v` |
| CookieJar.SetKeepsOthers | script.js:165-169 | `setCookie(name, v)` changes what the corrected lookup reads for no other name |
| CookieJar.EraseThenGet | script.js:182-184 | after `eraseCookie(name)` the jar is well formed and the corrected lookup of `name` reads null |
| CookieJar.EraseKeepsOthers | script.js:182-184 | `eraseCookie(name)` changes what the corrected lookup reads for no other name |
| CookieJar.Jar.GetCookie | script.js:171-180 | the lookup returns what the corrected `getCookie` reads from the jar's header |
| CookieJar.Jar.SetCookie | script.js:165-169 | the name is placed in creation order and its value becomes the encoded value; the jar stays well formed |
| CookieJar.Jar.EraseCookie | script.js:182-184 | the name leaves the order and the value map; the jar stays well formed |
| Page.Restored | script.js:186-197 | a URIError leaves the form as it is; only the name and email can change, and each changes only to the non-empty value read for it; when neither read throws, a non-empty value read for one of them is put into it |
| Page.BannerShownIff | script.js:205-208 | on any jar the handlers produce, the banner is shown exactly when the consent cookie is missing or stored empty, with the corrected lookup |
| Page.FirstVisit | script.js:205-208 | with no cookies the banner is shown and restoring changes nothing |
| Page.ValidFormStores | script.js:99-109 | a form that passes every rule has a non-blank name and an accepted address |
| Page.SubmitStores | script.js:108-109 | after a valid submit the corrected lookup reads the trimmed name from the name cookie and the address from the email cookie |
| Page.SubmitKeepsOthers | script.js:108-109 | a valid submit changes what no other cookie reads, with the corrected lookup |
| Page.ReloadRestores | script.js:186-197 | reloading after a valid submit, with the corrected lookup, puts the trimmed name and the address back into the form |
| Page.AcceptRecords | script.js:213-216 | after Accept the consent reads `accepted`, the banner stays hidden on later loads, and no other cookie changes, with the corrected lookup |
| Page.ConsentForgedAsWritten | script.js:173-177 | after a first valid submit with a full name `x;studeng_cookie_consent=` and then Accept, the script's `getCookie` reads the consent as empty, so the banner test of script.js:205-208 would show it again, while the corrected lookup reads `accepted` |
| Page.DeclineForgets | script.js:218-225 | after Decline the consent reads `declined`, the banner stays hidden on later loads, and the name and email read null |
| Page.DeclineKeepsOthers | script.js:218-225 | Decline changes what no cookie other than consent, name and email reads, with the corrected lookup |
| Page.ResetForgets | script.js:57-59 | after the reset button the name and email read null and no other cookie changes, with the corrected lookup |
| Page.SignupPage.Submit | script.js:64-111 | the errors are rebuilt and reported; with an error the failure message is shown, the first failing field gets focus and the jar is unchanged; otherwise both cookies are set and the success message is shown |
| Page.SignupPage.ReportErrors | script.js:66-105 | the message is hidden first and the errors are rebuilt from nothing; when there is one the failure message is shown and focus goes to the first key, and with none the message stays hidden and focus does not move |
| Page.SignupPage.StoreNameEmail | script.js:108-109 | the name cookie and then the email cookie are set to the trimmed values |
| Page.SignupPage.Reset | script.js:57-62 | the name and email cookies are erased, the preview is emptied and the message hidden; nothing else changes |
| Page.SignupPage.ChoosePhoto | script.js:43-46 | the new photo becomes the form's photo, and the preview is what the extension check decides |
| Page.SignupPage.RestoreNameEmail | script.js:186-197 | the form becomes what `Restored` gives for the values read from the jar |
| Page.SignupPage.ShowConsentBanner | script.js:205-208 | the banner is made visible when the consent cookie is missing or empty |
| Page.SignupPage.Load | script.js:20 | on page load the name and email are restored, then the banner is decided |
| Page.SignupPage.Accept | script.js:213-216 | the consent cookie is set to `accepted` and the banner is hidden |
| Page.SignupPage.Decline | script.js:218-225 | the consent cookie is set to `declined`, the banner is hidden, and the name and email cookies are erased |
| Page.SignupPage.ForgetNameEmail | script.js:58-59 | the name cookie and then the email cookie are erased |

## Left out

- The document's elements are left out: error text nodes, the `title` fallback of `showError`, CSS classes and `display` styles. The form message is the `Notice` value, and the focused element is the `focus` field.
- Clearing one field's error text on input or change (script.js:38-55) is left out. `shown` holds what the last submit reported.
- `clearAllErrors` is left out as a separate operation. Submit replaces `shown` as a whole, which is what it achieves.
- The footer years and the theme buttons (script.js:4-15) are left out: they are UI only.
- The bio character counter (script.js:38-41) is left out: it is UI only.
- `FileReader`'s asynchronous load and the `<img>` it inserts (script.js:155-162) are left out. The preview records `Load(name)`.
- The browser's native reset of the form's fields by the reset button is left out. Only the script's own handler is modelled.
- `setCookie`'s expiry date and path are left out, and so are `eraseCookie`'s `Max-Age=0` and path. Erasing removes the cookie, as an expired cookie is. Clocks are left out.
- `document.cookie` lists the cookies in creation order, with an overwritten cookie keeping its place. Other pages' cookies and other paths are not modelled.
- CookieJar.Jar.SetCookie: requires a name without `;`, `=` or whitespace (`ValidName`). The script accepts any name but passes only its three constant names, which are valid (`Page.CookieNames`).
- Cookies.HeaderLookup: states the lookup only for well-formed jars (distinct valid names, values as `encodeURIComponent` writes them), the only jars the page's handlers produce.
- Page.Restored: assumes the `fullname` and `email` inputs exist. The `if (f)` and `if (e)` checks for a missing element are not modelled.
- Page.SignupPage.Load: the two load handlers are modelled with the corrected lookup, and so are Page.SignupPage.RestoreNameEmail, Page.SignupPage.ShowConsentBanner and the lemmas Page.BannerShownIff, Page.SubmitKeepsOthers, Page.AcceptRecords, Page.DeclineKeepsOthers and Page.ResetForgets. A URIError therefore arises only from a stored value that does not decode. With the script's own `getCookie`, a full name holding an encoded `;` can forge another cookie: `x;studeng_cookie_consent=` makes the banner show again after Accept (Page.ConsentForgedAsWritten), and `x;foo=1` makes a cookie `foo` read `1` although no handler set it (Cookies.ForgedFirst). See Findings.
- With that corrected lookup, no reachable jar holds a value that fails to decode. The consequence of an escaped URIError in the banner's handler is not modelled: its buttons would never be wired up.
- AgeCheck.ParseNumber: follows `Number` for blank text, a sign, a decimal literal with an optional fraction, and `Infinity`. The literal is kept exact, and its rounding to the nearest double is modelled only where the rule needs it, in the comparison with 18. For a literal with more than 20 significant digits, ECMA-262's string-to-number conversion (RoundMVResult) lets an engine round after the 20th digit first, so a literal within `10^-18` of `18 - 2^-49` may be decided differently by some engine. Exponent forms (`1e2`), hexadecimal, octal and binary literals (`0x12`), and a literal starting with `.` are read as NaN. For exponent, hexadecimal, octal and binary forms JavaScript can accept an age the model refuses (`Number("1e2")` is 100). A literal starting with `.` is below 1 in JavaScript, so it is refused either way.
- Strings.LowerChar: lower-cases only the ASCII letters A-Z; JavaScript's full Unicode case mapping is left out. Whitespace, `@` and `.` keep their identity under both mappings, so `validateEmail` decides alike; a file name whose extension is spelled with a non-ASCII capital (U+212A KELVIN SIGN and U+0130 are the ones that lower-case to ASCII letters) is outside the model.
- Lengths are counted in Unicode scalar values, not UTF-16 code units: the password's six-character minimum counts a character outside the BMP once, where JavaScript counts it twice. Strings with lone surrogates cannot be expressed.

## Findings

| source | as written | input that shows it | evidently intended | confidence | as-written member | corrected member |
|---|---|---|---|---|---|---|
| script.js:173-174 | `getCookie` decodes the whole `document.cookie` and only then splits it on `;`, so an encoded `;` inside a stored value becomes a separator | a full name `x;studeng_email=y` stored before an email cookie `z`: `getCookie('studeng_email')` returns `y`, read from inside the name, and `getCookie('studeng_name')` returns `x`; a full name `x;studeng_cookie_consent=` followed by Accept makes `getCookie('studeng_cookie_consent')` return `''`, so the banner shows again on the next load | split the raw header on `;`, then decode only the value found, so every cookie reads back exactly as `setCookie` stored it | not executed | Cookies.ForgedPair | Cookies.HeaderLookup |
