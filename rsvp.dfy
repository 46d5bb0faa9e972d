/**
 * `initRSVPForm` (script.js:189-326): the RSVP form's details section, its
 * validation and what a submission does to the page.
 *
 * The request itself is not modelled: `Submit` is told whether the POST went
 * through. The error messages are the list of calls to `showError`, in order;
 * which element each is drawn next to is not part of the model.
 */
module Rsvp {
  import opened Wrappers
  import opened JsText
  import opened Email

  /** The errors validation can report; each stands for one call `showError(field, message)`. */
  datatype FieldError = NameMissing | EmailMissing | EmailInvalid | AttendanceMissing | EventsMissing {

    /** The `fieldName` argument of the `showError` call. */
    function Field(): string {
      match this
      case NameMissing => "name"
      case EmailMissing => "email"
      case EmailInvalid => "email"
      case AttendanceMissing => "attendance"
      case EventsMissing => "events"
    }

    /** The position of the check that reports this error in `validateForm`. */
    function Rank(): nat {
      match this
      case NameMissing => 0
      case EmailMissing => 1
      case EmailInvalid => 2
      case AttendanceMissing => 3
      case EventsMissing => 4
    }

    /** The `message` argument of the `showError` call. */
    function Message(): string {
      match this
      case NameMissing => "Please enter your name"
      case EmailMissing => "Please enter your email"
      case EmailInvalid => "Please enter a valid email address"
      case AttendanceMissing => "Please choose Yes or No"
      case EventsMissing => "Please select at least one part to attend"
    }
  }

  /** What `validateForm` reads from the form: the raw `#name` and `#email`
      values, the value of the checked `attendance` radio if any, and the checked
      flags of the `events` checkboxes. */
  datatype FormValues = FormValues(name: string, email: string, attendance: Option<string>, events: seq<bool>)

  /** `!attendance` (script.js:283): nothing checked, or a checked radio whose value is empty. */
  predicate NoAttendance(attendance: Option<string>) {
    attendance.None? || attendance.value == ""
  }

  /** `!value.trim()`: the field holds nothing but whitespace. */
  function Blank(value: string): (b: bool)
    ensures b <==> AllWhitespace(value)
  {
    Trim(value) == ""
  }

  /** `attendance === 'yes'`. */
  predicate Attending(attendance: Option<string>) {
    attendance == Some("yes")
  }

  /** The number of checked boxes: `querySelectorAll('input[name="events"]:checked').length`. */
  function CountChecked(events: seq<bool>): (n: nat)
    ensures n <= |events|
    ensures n == 0 <==> forall i :: 0 <= i < |events| ==> !events[i]
  {
    if events == [] then 0
    else CountChecked(events[..|events| - 1]) + (if events[|events| - 1] then 1 else 0)
  }

  /** The error one check reports, if its condition holds. */
  function Report(condition: bool, e: FieldError): (r: seq<FieldError>)
    ensures e in r <==> condition
    ensures |r| <= 1 && forall x :: x in r ==> x == e
  {
    if condition then [e] else []
  }

  /** The outcome of each test `validateForm` makes on the form. */
  datatype Checks = Checks(nameBlank: bool, emailBlank: bool, emailValid: bool,
                           noAttendance: bool, attending: bool, noneChecked: bool)

  function ChecksOf(f: FormValues): Checks {
    Checks(Blank(f.name), Blank(f.email), IsValidEmail(Trim(f.email)),
           NoAttendance(f.attendance), Attending(f.attendance), CountChecked(f.events) == 0)
  }

  /** The errors the four checks report, in the order they run. */
  function ErrorsOf(c: Checks): (errs: seq<FieldError>)
    ensures NameMissing in errs <==> c.nameBlank
    ensures EmailMissing in errs <==> c.emailBlank
    ensures EmailInvalid in errs <==> !c.emailBlank && !c.emailValid
    ensures AttendanceMissing in errs <==> c.noAttendance
    ensures EventsMissing in errs <==> c.attending && c.noneChecked
    ensures |errs| <= 4
  {
    Report(c.nameBlank, NameMissing)
    + (Report(c.emailBlank, EmailMissing) + Report(!c.emailBlank && !c.emailValid, EmailInvalid))
    + Report(c.noAttendance, AttendanceMissing)
    + Report(c.attending && c.noneChecked, EventsMissing)
  }

  /** The errors `validateForm` reports for a form. Every check runs whatever the
      others found, and each error is reported exactly when its own condition
      holds; so the two email errors never come together. */
  function ValidationErrors(f: FormValues): (errs: seq<FieldError>)
    ensures NameMissing in errs <==> Blank(f.name)
    ensures EmailMissing in errs <==> Blank(f.email)
    ensures EmailInvalid in errs <==> !Blank(f.email) && !IsValidEmail(Trim(f.email))
    ensures AttendanceMissing in errs <==> NoAttendance(f.attendance)
    ensures EventsMissing in errs <==> Attending(f.attendance) && CountChecked(f.events) == 0
    ensures !(EmailMissing in errs && EmailInvalid in errs)
  {
    ErrorsOf(ChecksOf(f))
  }

  /** The messages appear in the order the checks run, so none appears twice. */
  lemma ErrorsInCheckOrder(f: FormValues)
    ensures Ordered(ValidationErrors(f))
  {
    ErrorsOfOrdered(ChecksOf(f));
  }

  lemma ErrorsOfOrdered(c: Checks)
    ensures Ordered(ErrorsOf(c))
  {
    var a := Report(c.nameBlank, NameMissing);
    var b := Report(c.emailBlank, EmailMissing) + Report(!c.emailBlank && !c.emailValid, EmailInvalid);
    var d := Report(c.noAttendance, AttendanceMissing);
    var e := Report(c.attending && c.noneChecked, EventsMissing);
    assert Ordered(b) by {
      assert |b| <= 1;
    }
    OrderedAppend(a, b, 1, 3);
    OrderedAppend(a + b, d, 3, 4);
    OrderedAppend(a + b + d, e, 4, 5);
  }

  /** Ranks strictly increase along the list. */
  predicate Ordered(errs: seq<FieldError>) {
    forall i, j :: 0 <= i < j < |errs| ==> errs[i].Rank() < errs[j].Rank()
  }

  /** Every rank in the list is below `hi`. */
  predicate RanksBelow(errs: seq<FieldError>, hi: nat) {
    forall i :: 0 <= i < |errs| ==> errs[i].Rank() < hi
  }

  /** Every rank in the list is at least `lo`. */
  predicate RanksFrom(errs: seq<FieldError>, lo: nat) {
    forall i :: 0 <= i < |errs| ==> lo <= errs[i].Rank()
  }

  /** Two ordered lists whose ranks are separated by `k` join into an ordered list. */
  lemma OrderedAppend(xs: seq<FieldError>, ys: seq<FieldError>, k: nat, hi: nat)
    requires Ordered(xs) && Ordered(ys) && RanksBelow(xs, k) && RanksFrom(ys, k) && RanksBelow(ys, hi)
    requires k <= hi
    ensures Ordered(xs + ys) && RanksBelow(xs + ys, hi)
  {
    var zs := xs + ys;
    forall i, j | 0 <= i < j < |zs|
      ensures zs[i].Rank() < zs[j].Rank()
    {
      if j < |xs| {
        assert zs[i] == xs[i] && zs[j] == xs[j];
      } else if i >= |xs| {
        assert zs[i] == ys[i - |xs|] && zs[j] == ys[j - |xs|];
      } else {
        assert zs[i] == xs[i] && zs[j] == ys[j - |xs|];
      }
    }
    forall i | 0 <= i < |zs|
      ensures zs[i].Rank() < hi
    {
      if i >= |xs| {
        assert zs[i] == ys[i - |xs|];
      }
    }
  }

  /** `validateForm` (script.js:260-294), with `clearErrors` already done by the
      caller: the errors are collected one check after another and `isValid`
      goes false at the first of them. */
  method ValidateForm(f: FormValues) returns (isValid: bool, errors: seq<FieldError>)
    ensures errors == ValidationErrors(f)
    ensures isValid <==> errors == []
  {
    var name := Trim(f.name);
    var email := Trim(f.email);
    var eventsChecked := CountChecked(f.events);
    ghost var c := ChecksOf(f);
    errors := [];
    isValid := true;
    if name == "" {
      errors := errors + [NameMissing];
      isValid := false;
    }
    assert errors == Report(c.nameBlank, NameMissing) && (isValid <==> errors == []);
    ghost var before := errors;
    if email == "" {
      errors := errors + [EmailMissing];
      isValid := false;
    } else if !IsValidEmail(email) {
      errors := errors + [EmailInvalid];
      isValid := false;
    }
    assert errors == before + (Report(c.emailBlank, EmailMissing) + Report(!c.emailBlank && !c.emailValid, EmailInvalid));
    assert isValid <==> errors == [];
    before := errors;
    if NoAttendance(f.attendance) {
      errors := errors + [AttendanceMissing];
      isValid := false;
    }
    assert errors == before + Report(c.noAttendance, AttendanceMissing);
    before := errors;
    if Attending(f.attendance) && eventsChecked == 0 {
      errors := errors + [EventsMissing];
      isValid := false;
    }
    assert errors == before + Report(c.attending && c.noneChecked, EventsMissing);
  }

  /** A form left entirely empty gets exactly the three errors for name, email and
      attendance, and so is not sent. */
  lemma EmptyFormThreeErrors(events: seq<bool>)
    ensures ValidationErrors(FormValues("", "", None, events)) == [NameMissing, EmailMissing, AttendanceMissing]
  {
  }

  /** A complete "yes" with no part of the day ticked gets the events error and no other. */
  lemma YesWithoutEventsOneError(f: FormValues)
    requires !Blank(f.name) && IsValidEmail(Trim(f.email))
    requires Attending(f.attendance) && forall i :: 0 <= i < |f.events| ==> !f.events[i]
    ensures ValidationErrors(f) == [EventsMissing]
  {
  }

  /** The worked example of the validation rules: a name, "a@b.co", "yes", no events. */
  lemma YesWithoutEventsExample()
    ensures ValidationErrors(FormValues("Alice", "a@b.co", Some("yes"), [false, false])) == [EventsMissing]
  {
    AcceptedExample();
    assert Trim("a@b.co") == "a@b.co";
    assert !Blank("Alice") by { assert !IsWhitespace("Alice"[0]); }
  }

  /** The email is trimmed before it is tested: blanks around a valid address do
      not make the form invalid. */
  lemma PaddedEmailExample()
    ensures ValidationErrors(FormValues("Alice", " a@b.co\n", Some("no"), [])) == []
  {
    TrimExample();
    AcceptedExample();
    assert !Blank("Alice") by { assert !IsWhitespace("Alice"[0]); }
  }

  /** Answering "no" is never held up by the events checkboxes. */
  lemma DecliningSkipsEvents(f: FormValues)
    requires f.attendance == Some("no")
    ensures EventsMissing !in ValidationErrors(f)
  {
  }

  const SendingLabel := "<span>Sending...</span>"
  const ThankYouTitle := "Thank You!"
  const CelebrateText := "We can't wait to celebrate with you!"
  const ResponseText := "Thank you for your response."

  /** The success paragraph's text (script.js:241-244). */
  function SuccessText(attendance: Option<string>): (t: string)
    ensures t == CelebrateText <==> Attending(attendance)
    ensures t == CelebrateText || t == ResponseText
  {
    if Attending(attendance) then CelebrateText else ResponseText
  }

  /** How the single POST ended, as far as the script can tell: `fetch` resolved
      (whatever the response status) or rejected. */
  datatype RequestOutcome = Delivered | NetworkError

  /** The form, with the page elements its handlers read and write. */
  class RsvpForm {
    var name: string                // `#name` value
    var email: string               // `#email` value
    var attendance: Option<string>  // value of the checked `attendance` radio
    const events: array<bool>       // checked flags of the `events` checkboxes
    var dietary: Option<string>     // `#dietary` value; None when the page has no such field
    var message: Option<string>     // `#message` value; None when the page has no such field
    var detailsHidden: bool         // `#rsvp-details` has the class "hidden"
    var errors: seq<FieldError>     // the `showError` calls of the last validation
    var buttonLabel: string         // the submit button's `innerHTML`
    var buttonDisabled: bool        // the submit button's `disabled`
    var formHidden: bool            // the form's `style.display` is 'none'
    const hasPanel: bool            // the page has `#rsvp-success`
    var panelHidden: bool           // `#rsvp-success` has the class "hidden"
    var successTitle: Option<string> // text of its `h3`; None when there is none
    var successText: Option<string>  // text of its first `p`; None when there is none

    /** What validation and the request read now. */
    function Values(): FormValues
      reads this, events
    {
      FormValues(name, email, attendance, events[..])
    }

    /** The success panel's children exist only if the panel does. */
    ghost predicate Valid()
      reads this
    {
      !hasPanel ==> successTitle.None? && successText.None?
    }

    /** The form as the page loads it, after the one call of
        `setDetailsVisibility` that `initRSVPForm` makes (script.js:213). */
    constructor (name: string, email: string, attendance: Option<string>, events: seq<bool>,
                 dietary: Option<string>, message: Option<string>, buttonLabel: string,
                 hasPanel: bool, successTitle: Option<string>, successText: Option<string>)
      requires !hasPanel ==> successTitle.None? && successText.None?
      ensures Valid() && errors == [] && !formHidden && !buttonDisabled && panelHidden
      ensures this.name == name && this.email == email && this.attendance == attendance
      ensures this.buttonLabel == buttonLabel && this.hasPanel == hasPanel
      ensures this.successTitle == successTitle && this.successText == successText
      ensures fresh(this.events) && this.events.Length == |events|
      ensures Attending(attendance) ==>
                !detailsHidden && this.events[..] == events && this.dietary == dietary && this.message == message
      ensures !Attending(attendance) ==>
                detailsHidden && (forall i :: 0 <= i < this.events.Length ==> !this.events[i])
                && this.dietary == (if dietary.Some? then Some("") else None)
                && this.message == (if message.Some? then Some("") else None)
    {
      this.name, this.email, this.attendance := name, email, attendance;
      this.events := new bool[|events|] (i requires 0 <= i < |events| => events[i]);
      this.dietary, this.message := dietary, message;
      detailsHidden, errors := false, [];
      this.buttonLabel, buttonDisabled, formHidden := buttonLabel, false, false;
      this.hasPanel, panelHidden := hasPanel, true;
      this.successTitle, this.successText := successTitle, successText;
      new;
      assert this.events[..] == events;
      SetDetailsVisibility();
    }

    /** `setDetailsVisibility` (script.js:197-210): "yes" shows the details and
        leaves every field as it is; anything else hides them and empties what they hold. */
    method SetDetailsVisibility()
      modifies this, events
      ensures Attending(attendance) ==>
                !detailsHidden && events[..] == old(events[..]) && dietary == old(dietary) && message == old(message)
      ensures !Attending(attendance) ==>
                detailsHidden && (forall i :: 0 <= i < events.Length ==> !events[i])
                && dietary == (if old(dietary).Some? then Some("") else None)
                && message == (if old(message).Some? then Some("") else None)
      ensures name == old(name) && email == old(email) && attendance == old(attendance)
      ensures errors == old(errors) && buttonLabel == old(buttonLabel) && buttonDisabled == old(buttonDisabled)
      ensures formHidden == old(formHidden) && panelHidden == old(panelHidden)
      ensures successTitle == old(successTitle) && successText == old(successText)
    {
      if Attending(attendance) {
        detailsHidden := false;
      } else {
        detailsHidden := true;
        for i := 0 to events.Length
          modifies events
          invariant forall k :: 0 <= k < i ==> !events[k]
        {
          events[i] := false;
        }
        if dietary.Some? {
          dietary := Some("");
        }
        if message.Some? {
          message := Some("");
        }
      }
    }

    /** A change of the attendance radio (script.js:212). */
    method ChooseAttendance(value: string)
      modifies this, events
      ensures attendance == Some(value)
      ensures value == "yes" ==>
                !detailsHidden && events[..] == old(events[..]) && dietary == old(dietary) && message == old(message)
      ensures value != "yes" ==>
                detailsHidden && (forall i :: 0 <= i < events.Length ==> !events[i])
                && dietary == (if old(dietary).Some? then Some("") else None)
                && message == (if old(message).Some? then Some("") else None)
      ensures name == old(name) && email == old(email) && errors == old(errors)
      ensures buttonLabel == old(buttonLabel) && buttonDisabled == old(buttonDisabled)
      ensures formHidden == old(formHidden) && panelHidden == old(panelHidden)
      ensures successTitle == old(successTitle) && successText == old(successText)
    {
      attendance := Some(value);
      SetDetailsVisibility();
    }

    /** The submit listener (script.js:215-256). The old messages are cleared and
        validation runs; only a valid form is sent, and `posted` is what is sent. */
    method Submit(outcome: RequestOutcome) returns (posted: Option<FormValues>)
      requires Valid()
      modifies this
      ensures Valid()
      ensures errors == ValidationErrors(old(Values()))
      ensures posted.Some? <==> errors == []
      ensures posted.Some? ==> posted.value == old(Values())
      ensures name == old(name) && email == old(email) && attendance == old(attendance)
      ensures dietary == old(dietary) && message == old(message) && detailsHidden == old(detailsHidden)
      ensures posted.None? ==>
                buttonLabel == old(buttonLabel) && buttonDisabled == old(buttonDisabled)
                && formHidden == old(formHidden) && panelHidden == old(panelHidden)
                && successTitle == old(successTitle) && successText == old(successText)
      ensures posted.Some? ==> Sent(outcome, old(buttonLabel), old(successTitle), old(successText), old(formHidden), old(panelHidden))
    {
      errors := [];
      var isValid, found := ValidateForm(Values());
      errors := found;
      if !isValid {
        return None;
      }
      posted := Some(Values());
      SendRequest(outcome);
    }

    /** The page after the request for a valid form has ended with `outcome`,
        given how the button and the success panel were before it. */
    ghost predicate Sent(outcome: RequestOutcome, priorLabel: string, title: Option<string>, text: Option<string>,
                         wasFormHidden: bool, wasPanelHidden: bool)
      reads this
    {
      if outcome == Delivered && hasPanel && title.Some? && text.Some? then
        successTitle == Some(ThankYouTitle) && successText == Some(SuccessText(attendance))
        && formHidden && !panelHidden && buttonLabel == SendingLabel && buttonDisabled
      else
        buttonLabel == priorLabel && !buttonDisabled && formHidden == wasFormHidden && panelHidden == wasPanelHidden
        && successText == text
        && successTitle == (if outcome == Delivered && hasPanel && title.Some? then Some(ThankYouTitle) else title)
    }

    /** The `try`/`catch` part of the submit listener (script.js:220-255). The
        button shows "Sending..." and is disabled while the request runs. When the
        request went through and the success panel is complete, the form gives way
        to the thank-you panel. When the request failed, or the success branch
        threw at a missing part of the panel, the button gets its label back and
        is enabled again. */
    method SendRequest(outcome: RequestOutcome)
      requires Valid()
      modifies this
      ensures Valid()
      ensures Sent(outcome, old(buttonLabel), old(successTitle), old(successText), old(formHidden), old(panelHidden))
      ensures name == old(name) && email == old(email) && attendance == old(attendance)
      ensures dietary == old(dietary) && message == old(message) && detailsHidden == old(detailsHidden)
      ensures errors == old(errors)
    {
      var originalText := buttonLabel;
      buttonLabel := SendingLabel;
      buttonDisabled := true;
      var failed := outcome == NetworkError;
      if !failed {
        // Each of these lookups throws when its element is missing, which lands in the catch.
        if !hasPanel || successTitle.None? {
          failed := true;
        } else {
          successTitle := Some(ThankYouTitle);
          if successText.None? {
            failed := true;
          } else {
            successText := Some(SuccessText(attendance));
            formHidden := true;
            panelHidden := false;
          }
        }
      }
      if failed {
        buttonLabel := originalText;
        buttonDisabled := false;
      }
    }
  }
}
