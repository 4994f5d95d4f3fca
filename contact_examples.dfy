/**
 * The worked examples of the contact form: sample mobile numbers and email
 * addresses, and the three end-to-end exchanges (a good record sent, a bad
 * record refused, a good record whose send throws).
 */
module ContactExamples {
  import opened Wrappers
  import opened JsStrings
  import opened ContactValidation
  import opened ContactForm

  /** Stripping non-digits distributes over concatenation. */
  lemma {:induction false} DigitsOnlyConcat(s: string, t: string)
    ensures DigitsOnly(s + t) == DigitsOnly(s) + DigitsOnly(t)
    decreases |t|
  {
    if t != [] {
      var t' := t[..|t| - 1];
      assert (s + t)[..|s + t| - 1] == s + t';
      var c := t[|t| - 1];
      var last := if IsDigit(c) then [c] else [];
      assert (s + t)[|s + t| - 1] == c;
      assert DigitsOnly(s + t) == DigitsOnly(s + t') + last;
      assert DigitsOnly(t) == DigitsOnly(t') + last;
      DigitsOnlyConcat(s, t');
      assert DigitsOnly(s) + DigitsOnly(t') + last == DigitsOnly(s) + (DigitsOnly(t') + last);
    } else {
      assert s + t == s;
    }
  }

  /** A string of digits is left as it is. */
  lemma {:induction false} DigitsOnlyOfDigits(s: string)
    requires forall i :: 0 <= i < |s| ==> IsDigit(s[i])
    ensures DigitsOnly(s) == s
    decreases |s|
  {
    if s != [] {
      DigitsOnlyOfDigits(s[..|s| - 1]);
    }
  }

  /** Ten plain digits pass and five fail. */
  lemma PlainMobileExamples()
    ensures ValidateMobileNumber("9876543210")
    ensures !ValidateMobileNumber("12345")
    ensures !ValidateMobileNumber("123")
  {
    DigitsOnlyOfDigits("9876543210");
    DigitsOnlyOfDigits("12345");
    DigitsOnlyOfDigits("123");
  }

  /** Ten digits broken up by dashes pass: the dashes are ignored. */
  lemma SeparatedMobileExample()
    ensures ValidateMobileNumber("98" + "-" + "76" + "-" + "543" + "-" + "210")
  {
    assert DigitsOnly("-") == [];
    DigitsOnlyOfDigits("98");
    DigitsOnlyOfDigits("76");
    DigitsOnlyOfDigits("543");
    DigitsOnlyOfDigits("210");
    DigitsOnlyConcat("98", "-");
    DigitsOnlyConcat("98" + "-", "76");
    DigitsOnlyConcat("98" + "-" + "76", "-");
    DigitsOnlyConcat("98" + "-" + "76" + "-", "543");
    DigitsOnlyConcat("98" + "-" + "76" + "-" + "543", "-");
    DigitsOnlyConcat("98" + "-" + "76" + "-" + "543" + "-", "210");
  }

  /** A one-letter local part and host with a three-letter suffix pass. */
  lemma ShortEmailExample()
    ensures ValidateEmail("a@b.com")
  {
    var s := "a@b.com";
    assert s[..1] == "a" && s[2..3] == "b" && s[4..] == "com";
    assert EmailShapeAt(s, 1, 3);
    ValidateEmailMatchesPattern(s);
  }

  /** A longer local part passes too. */
  lemma JaneEmailExample()
    ensures ValidateEmail("jane@x.com")
  {
    var s := "jane@x.com";
    assert s[..4] == "jane" && s[5..6] == "x" && s[7..] == "com";
    assert EmailShapeAt(s, 4, 6);
    ValidateEmailMatchesPattern(s);
  }

  /** A domain without a dot fails, and so does a string without '@'. */
  lemma BadEmailExamples()
    ensures !ValidateEmail("a@b")
    ensures !ValidateEmail("bad")
  {
  }

  /** A record that passes: Jane, ten digits, a well-formed address. */
  const Jane := FormData("Jane", "", "9876543210", "jane@x.com", "", "")

  lemma JaneIsAcceptable()
    ensures Acceptable(Jane)
  {
    PlainMobileExamples();
    JaneEmailExample();
    TrimSpec("Jane");
    assert !IsWhiteSpace("Jane"[0]);
  }

  /** A record that fails every check: a blank name, three digits, no '@'. */
  const Refused := FormData("", "", "123", "bad", "", "")

  /** The outcome of each check on the refused record. */
  lemma RefusedChecks()
    ensures IsBlank(Refused.name)
    ensures !IsBlank(Refused.mobileNumber) && !ValidateMobileNumber(Refused.mobileNumber)
    ensures !IsBlank(Refused.email) && !ValidateEmail(Refused.email)
  {
    PlainMobileExamples();
    BadEmailExamples();
    TrimSpec("123");
    assert !IsWhiteSpace("123"[0]);
    TrimSpec("bad");
    assert !IsWhiteSpace("bad"[0]);
  }

  /** The refused record earns the "required" message for the name and the
      format messages for the mobile number and the email address. */
  lemma RefusedErrors(m: map<Field, ErrorText>)
    requires ReportsErrors(Refused, m)
    ensures m == map[Name := NameRequired, MobileNumber := MobileInvalid, Email := EmailInvalid]
  {
    RefusedChecks();
    var expected := map[Name := NameRequired, MobileNumber := MobileInvalid, Email := EmailInvalid];
    assert ErrorMapFor(true, false, false, false, false, m);
    ErrorMapUnique(true, false, false, false, false, m, expected);
  }

  /** Scenario A: Jane's record is sent as typed; the form then empties, shows
      the thank-you banner and closes when the timer fires. */
  method SentScenario() returns (request: Option<Submission>, shown: Option<SubmitMessage>,
                                 after: FormData, closed: bool)
    ensures request == Some(Submission(Jane, "2024-01-01T00:00:00.000Z"))
    ensures shown == Some(SentMessage) && after == EmptyForm && closed
  {
    JaneIsAcceptable();
    var errs;
    request, shown, after, errs, closed := FillAndSubmit(Jane, "2024-01-01T00:00:00.000Z", false);
  }

  /** Scenario B: the refused record sends nothing and shows the three
      errors. */
  method RefusedScenario() returns (request: Option<Submission>, errs: map<Field, ErrorText>)
    ensures request == None
    ensures errs == map[Name := NameRequired, MobileNumber := MobileInvalid, Email := EmailInvalid]
  {
    var shown, after, closed;
    request, shown, after, errs, closed := FillAndSubmit(Refused, "2024-01-01T00:00:00.000Z", false);
    RefusedErrors(errs);
  }

  /** Scenario C: Jane's record is sent but the transport throws; the retry
      banner shows, the record stays and the form stays open. */
  method ThrownScenario() returns (request: Option<Submission>, shown: Option<SubmitMessage>,
                                   after: FormData, closed: bool)
    ensures request.Some? && shown == Some(RetryMessage) && after == Jane && !closed
  {
    JaneIsAcceptable();
    var errs;
    request, shown, after, errs, closed := FillAndSubmit(Jane, "2024-01-01T00:00:00.000Z", true);
  }
}
