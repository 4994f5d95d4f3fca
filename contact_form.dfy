/**
 * The contact section's state and its event handlers: editing a field,
 * submitting (validation, then the send to the form endpoint), the outcome of
 * the send, the delayed auto-close after a success, the close button and the
 * "Let's Talk" toggle.
 *
 * The send is asynchronous: `HandleSubmit` is the handler up to the point where
 * it awaits the transport, and `TransportSettles` is what runs once the
 * transport returns or throws. Each scheduled auto-close is an event of its
 * own, `CloseTimerFires`.
 */
module ContactForm {
  import opened Wrappers
  import opened JsStrings
  import opened ContactValidation

  /** The banner shown under the form: the thank-you note after a send (type
      `success`), or the retry note after a failed one (type `error`). */
  datatype SubmitMessage = SentMessage | RetryMessage
  {
    /** The banner's text, never empty. */
    function Text(): (t: string)
      ensures |t| > 0
    {
      match this
      case SentMessage => "Thanks! Your message has been sent. I'll get back to you soon!"
      case RetryMessage => "Failed to send message. Please try again or contact me directly."
    }
  }

  /** What is handed to the transport: the form record and the capture time.
      The timestamp is an opaque ISO-8601 string supplied by the caller. */
  datatype Submission = Submission(data: FormData, timestamp: string)

  /** An entry of the error map is truthy when present and non-empty. */
  predicate HasError(errors: map<Field, ErrorText>, f: Field) {
    f in errors && errors[f] != Cleared
  }

  /** The texts a field's error entry can hold: the messages of its own checks,
      or the empty text an edit leaves behind. */
  predicate KnownMessage(f: Field, text: ErrorText) {
    || text == Cleared
    || (f == Name && text == NameRequired)
    || (f == MobileNumber && (text == MobileRequired || text == MobileInvalid))
    || (f == Email && (text == EmailRequired || text == EmailInvalid))
  }

  /** What the error map can hold at any time: entries for required fields only,
      each holding one of that field's messages or the empty text. */
  predicate ErrorsWellFormed(errors: map<Field, ErrorText>) {
    && errors.Keys <= RequiredFields
    && forall f | f in errors :: KnownMessage(f, errors[f])
  }

  /** The error map after an edit of `f`: a truthy entry for `f` becomes "", and
      nothing else changes; no key is added. */
  function ClearError(errors: map<Field, ErrorText>, f: Field): (r: map<Field, ErrorText>)
    ensures r.Keys == errors.Keys
    ensures !HasError(r, f)
    ensures forall g | g in errors && g != f :: r[g] == errors[g]
    ensures !HasError(errors, f) ==> r == errors
  {
    if HasError(errors, f) then errors[f := Cleared] else errors
  }

  /** Clearing keeps the error map well formed. */
  lemma ClearErrorWellFormed(errors: map<Field, ErrorText>, f: Field)
    requires ErrorsWellFormed(errors)
    ensures ErrorsWellFormed(ClearError(errors, f))
  {
  }

  /** An error map built from the outcomes of the checks is well formed. */
  lemma ErrorMapWellFormed(nameBlank: bool, mobileBlank: bool, mobileOk: bool,
                             emailBlank: bool, emailOk: bool, m: map<Field, ErrorText>)
    requires ErrorMapFor(nameBlank, mobileBlank, mobileOk, emailBlank, emailOk, m)
    ensures ErrorsWellFormed(m)
  {
  }

  /** A map that reports the validation errors of a record is well formed. */
  lemma ReportedErrorsWellFormed(d: FormData, m: map<Field, ErrorText>)
    requires ReportsErrors(d, m)
    ensures ErrorsWellFormed(m)
  {
  }

  class ContactForm {
    var showChatForm: bool
    var isSubmitting: bool
    var submitMessage: Option<SubmitMessage>
    var formData: FormData
    var errors: map<Field, ErrorText>
    /** The number of auto-close callbacks scheduled and not yet run. */
    var pendingCloses: int

    ghost predicate Valid()
      reads this
    {
      ErrorsWellFormed(errors) && pendingCloses >= 0
    }

    /** The state on mount: form hidden, nothing in flight, no banner, empty
        record, no errors. */
    constructor ()
      ensures Valid()
      ensures !showChatForm && !isSubmitting && submitMessage == None
      ensures formData == EmptyForm && errors == map[] && pendingCloses == 0
    {
      showChatForm := false;
      isSubmitting := false;
      submitMessage := None;
      formData := EmptyForm;
      errors := map[];
      pendingCloses := 0;
    }

    /** `validateForm`: replace the error map by the one the current record
        earns, and report whether it is empty. */
    method ValidateForm() returns (ok: bool)
      requires Valid()
      modifies this`errors
      ensures Valid()
      ensures showChatForm == old(showChatForm) && isSubmitting == old(isSubmitting)
      ensures submitMessage == old(submitMessage) && pendingCloses == old(pendingCloses)
      ensures ReportsErrors(formData, errors)
      ensures ok <==> errors == map[]
      ensures ok <==> Acceptable(formData)
    {
      var newErrors := ComputeErrors(formData);
      ReportedErrorsWellFormed(formData, newErrors);
      errors := newErrors;
      ok := |newErrors| == 0;
    }

    /** `handleInputChange`: store the value; clear the field's error entry if
        it was truthy. */
    method HandleInputChange(field: Field, value: string)
      requires Valid()
      modifies this`formData, this`errors
      ensures Valid()
      ensures formData == old(formData).Set(field, value)
      ensures errors == ClearError(old(errors), field)
    {
      formData := formData.Set(field, value);
      if HasError(errors, field) {
        errors := errors[field := Cleared];
      }
      ClearErrorWellFormed(old(errors), field);
    }

    /** `handleSubmit` up to the `await`: validate; on failure stop with the
        errors shown and nothing sent; otherwise mark the form as submitting,
        clear the banner and hand the record with its timestamp to the
        transport. The submit button is disabled while a send is in flight, so
        no submit arrives then. */
    method HandleSubmit(timestamp: string) returns (request: Option<Submission>)
      requires Valid() && !isSubmitting
      modifies this
      ensures Valid()
      ensures ReportsErrors(formData, errors)
      ensures formData == old(formData)
      ensures showChatForm == old(showChatForm) && pendingCloses == old(pendingCloses)
      ensures request.Some? <==> Acceptable(formData)
      ensures request.None? ==> !isSubmitting && submitMessage == old(submitMessage)
      ensures request.Some? ==>
                && request.value == Submission(formData, timestamp)
                && isSubmitting && submitMessage == None && errors == map[]
    {
      var ok := ValidateForm();
      if !ok {
        return None;
      }
      isSubmitting := true;
      submitMessage := None;
      request := Some(Submission(formData, timestamp));
    }

    /** The rest of `handleSubmit`, once the transport call returns (`threw`
        false) or throws. The response itself is never inspected: returning
        at all counts as success, which shows the thank-you banner, resets the
        record and schedules the auto-close; a throw shows the retry banner and
        keeps the record. Either way the form stops submitting. */
    method TransportSettles(threw: bool)
      requires Valid() && isSubmitting
      modifies this
      ensures Valid()
      ensures !isSubmitting
      ensures errors == old(errors) && showChatForm == old(showChatForm)
      ensures !threw ==>
                && submitMessage == Some(SentMessage) && formData == EmptyForm
                && pendingCloses == old(pendingCloses) + 1
      ensures threw ==>
                && submitMessage == Some(RetryMessage) && formData == old(formData)
                && pendingCloses == old(pendingCloses)
    {
      if !threw {
        submitMessage := Some(SentMessage);
        formData := EmptyForm;
        pendingCloses := pendingCloses + 1;
      } else {
        submitMessage := Some(RetryMessage);
      }
      isSubmitting := false;
    }

    /** A scheduled auto-close runs: hide the form and drop the banner. */
    method CloseTimerFires()
      requires Valid() && pendingCloses > 0
      modifies this`showChatForm, this`submitMessage, this`pendingCloses
      ensures Valid()
      ensures !showChatForm && submitMessage == None
      ensures pendingCloses == old(pendingCloses) - 1
    {
      showChatForm := false;
      submitMessage := None;
      pendingCloses := pendingCloses - 1;
    }

    /** `closeChatForm`: hide the form, drop the banner and every error; the
        entered values stay. */
    method CloseChatForm()
      requires Valid()
      modifies this`showChatForm, this`submitMessage, this`errors
      ensures Valid()
      ensures !showChatForm && submitMessage == None && errors == map[]
    {
      showChatForm := false;
      submitMessage := None;
      errors := map[];
    }

    /** The "Let's Talk" / "Close" button: flip the visibility of the form. */
    method ToggleChatForm()
      requires Valid()
      modifies this`showChatForm
      ensures Valid()
      ensures showChatForm == !old(showChatForm)
    {
      showChatForm := !showChatForm;
    }
  }

  /** A fresh form, opened, with the six values of `d` typed in: it shows the
      form with exactly that record, no errors, no banner and nothing in
      flight. */
  method OpenAndFill(d: FormData) returns (form: ContactForm)
    ensures fresh(form) && form.Valid()
    ensures form.showChatForm && !form.isSubmitting && form.submitMessage == None
    ensures form.formData == d && form.errors == map[] && form.pendingCloses == 0
  {
    form := new ContactForm();
    form.ToggleChatForm();
    form.HandleInputChange(Name, d.name);
    form.HandleInputChange(CompanyName, d.companyName);
    form.HandleInputChange(MobileNumber, d.mobileNumber);
    form.HandleInputChange(Email, d.email);
    form.HandleInputChange(Purpose, d.purpose);
    form.HandleInputChange(Message, d.message);
    FormDataExtensional(form.formData, d);
  }

  /** A whole exchange on a fresh form: open it, type the six values, submit,
      let the transport return or throw, and run the auto-close if one was
      scheduled. Only an acceptable record is sent, and it is sent exactly as
      typed; a completed send empties the form, shows the thank-you banner and
      closes the form; a thrown one keeps what was typed, shows the retry banner
      and leaves the form open; a refused submit shows the field errors, no
      banner, and leaves the form open. */
  method FillAndSubmit(d: FormData, timestamp: string, threw: bool)
    returns (request: Option<Submission>, shown: Option<SubmitMessage>,
             after: FormData, errs: map<Field, ErrorText>, closed: bool)
    ensures request.Some? <==> Acceptable(d)
    ensures request.Some? ==> request.value == Submission(d, timestamp)
    ensures ReportsErrors(d, errs)
    ensures request.None? ==> shown == None && after == d
    ensures request.Some? && !threw ==> shown == Some(SentMessage) && after == EmptyForm
    ensures request.Some? && threw ==> shown == Some(RetryMessage) && after == d
    ensures closed <==> request.Some? && !threw
  {
    var form := OpenAndFill(d);
    request := form.HandleSubmit(timestamp);
    errs := form.errors;
    if request.Some? {
      form.TransportSettles(threw);
    }
    shown := form.submitMessage;
    after := form.formData;
    if form.pendingCloses > 0 {
      form.CloseTimerFires();
    }
    closed := !form.showChatForm;
  }
}
