/**
 * The contact form's record and its client-side validation: the email and
 * mobile-number validators and the construction of the field-to-message error
 * map that a submit attempt reports.
 */
module ContactValidation {
  import opened Wrappers
  import opened JsStrings

  /** The six named inputs of the form. */
  datatype Field = Name | CompanyName | MobileNumber | Email | Purpose | Message

  /** The fields that can carry a validation error. */
  const RequiredFields: set<Field> := {Name, MobileNumber, Email}

  /** The form record; `purpose` holds the value of the selected option, or "". */
  datatype FormData = FormData(
    name: string,
    companyName: string,
    mobileNumber: string,
    email: string,
    purpose: string,
    message: string)
  {
    /** The value of one named input. */
    function Get(f: Field): string {
      match f
      case Name => name
      case CompanyName => companyName
      case MobileNumber => mobileNumber
      case Email => email
      case Purpose => purpose
      case Message => message
    }

    /** `{ ...prev, [f]: v }`: the named input takes the new value and every other
        input keeps its own. */
    function Set(f: Field, v: string): (d: FormData)
      ensures d.Get(f) == v
      ensures forall g :: g != f ==> d.Get(g) == Get(g)
    {
      match f
      case Name => this.(name := v)
      case CompanyName => this.(companyName := v)
      case MobileNumber => this.(mobileNumber := v)
      case Email => this.(email := v)
      case Purpose => this.(purpose := v)
      case Message => this.(message := v)
    }
  }

  /** The record the form starts with and is reset to after a successful send. */
  const EmptyForm := FormData("", "", "", "", "", "")

  /** The texts an entry of the error map can hold: the five messages of
      `validateForm`, and the empty string an edit writes over a shown error. */
  datatype ErrorText = Cleared | NameRequired | MobileRequired | MobileInvalid | EmailRequired | EmailInvalid
  {
    function Text(): (t: string)
      ensures t == "" <==> this == Cleared
    {
      match this
      case Cleared => ""
      case NameRequired => "Name is required"
      case MobileRequired => "Mobile number is required"
      case MobileInvalid => "Please enter a valid 10-digit mobile number"
      case EmailRequired => "Email is required"
      case EmailInvalid => "Please enter a valid email address"
    }
  }

  /** A form record is determined by the values of its six inputs. */
  lemma FormDataExtensional(d: FormData, e: FormData)
    requires forall f :: d.Get(f) == e.Get(f)
    ensures d == e
  {
    assert d.Get(Name) == e.Get(Name) && d.Get(CompanyName) == e.Get(CompanyName);
    assert d.Get(MobileNumber) == e.Get(MobileNumber) && d.Get(Email) == e.Get(Email);
    assert d.Get(Purpose) == e.Get(Purpose) && d.Get(Message) == e.Get(Message);
  }

  /** Writing the same value twice is the same as writing it once. */
  lemma SetIdempotent(d: FormData, f: Field, v: string)
    ensures d.Set(f, v).Set(f, v) == d.Set(f, v)
  {
  }

  // ---------------------------------------------------------------------------
  // Mobile number

  /** An ASCII digit, the complement of the regular-expression class `\D`. */
  predicate IsDigit(c: char) {
    '0' <= c <= '9'
  }

  /** The positions of `s` that hold a digit. */
  ghost function DigitPositions(s: string): set<int> {
    set i | 0 <= i < |s| && IsDigit(s[i])
  }

  /** `s.replace(/\D/g, '')`: keep the digits, in order. */
  function DigitsOnly(s: string): (r: string)
    ensures |r| <= |s|
  {
    if s == [] then []
    else DigitsOnly(s[..|s| - 1]) + (if IsDigit(s[|s| - 1]) then [s[|s| - 1]] else [])
  }

  /** What the replacement leaves is made of digits only, and holds one
      character for each digit position of `s`. */
  lemma {:induction false} DigitsOnlySpec(s: string)
    ensures forall i :: 0 <= i < |DigitsOnly(s)| ==> IsDigit(DigitsOnly(s)[i])
    ensures |DigitsOnly(s)| == |DigitPositions(s)|
    decreases |s|
  {
    if s != [] {
      DigitsOnlySpec(s[..|s| - 1]);
      DigitPositionsSnoc(s);
    }
  }

  /** The digit positions of a non-empty string: those of all but its last
      character, plus the last one when it is a digit. */
  lemma DigitPositionsSnoc(s: string)
    requires s != []
    ensures DigitPositions(s)
         == DigitPositions(s[..|s| - 1]) + (if IsDigit(s[|s| - 1]) then {|s| - 1} else {})
  {
  }

  /** `validateMobileNumber`: ten digits once every non-digit is removed (the
      anchored ten-digit pattern the source also declares is never used). */
  function ValidateMobileNumber(mobile: string): bool {
    |DigitsOnly(mobile)| == 10
  }

  /** A mobile number is accepted exactly when it holds ten digit characters,
      whatever else it holds. */
  lemma ValidateMobileNumberSpec(mobile: string)
    ensures ValidateMobileNumber(mobile) <==> |DigitPositions(mobile)| == 10
  {
    DigitsOnlySpec(mobile);
  }

  // ---------------------------------------------------------------------------
  // Email

  /** Every character is in the class `[^\s@]`. */
  predicate Plain(t: string) {
    forall i :: 0 <= i < |t| ==> !IsWhiteSpace(t[i]) && t[i] != '@'
  }

  /** `s` reads as local `@` host `.` suffix with the '@' at `a` and the '.' at
      `d`, each of the three parts non-empty and in `[^\s@]`. */
  ghost predicate EmailShapeAt(s: string, a: int, d: int) {
    && 0 < a && a + 1 < d && d + 1 < |s|
    && s[a] == '@' && s[d] == '.'
    && Plain(s[..a]) && Plain(s[a + 1..d]) && Plain(s[d + 1..])
  }

  /** The language of `^[^\s@]+@[^\s@]+\.[^\s@]+$`. */
  ghost predicate MatchesEmailPattern(s: string) {
    exists a, d :: EmailShapeAt(s, a, d)
  }

  /** A '.' that is neither the first nor the last character. */
  predicate HasInnerDot(t: string) {
    exists j :: 0 < j < |t| - 1 && t[j] == '.'
  }

  /** `validateEmail`: split at the first '@'; the local part must be non-empty
      and in `[^\s@]`, the domain in `[^\s@]` with an inner '.'. */
  function ValidateEmail(s: string): bool {
    match IndexOf(s, "@")
    case None => false
    case Some(a) =>
      IndexOfSpec(s, "@");
      0 < a && Plain(s[..a]) && Plain(s[a + 1..]) && HasInnerDot(s[a + 1..])
  }

  /** The validator accepts exactly the strings of the email pattern. */
  lemma ValidateEmailMatchesPattern(s: string)
    ensures ValidateEmail(s) <==> MatchesEmailPattern(s)
  {
    IndexOfSpec(s, "@");
    match IndexOf(s, "@")
    case None => NoAtNoMatch(s);
    case Some(a) => EmailAtFirstAt(s, a, ValidateEmail(s));
  }

  lemma NoAtNoMatch(s: string)
    requires !Contains(s, "@")
    ensures !MatchesEmailPattern(s)
  {
    if MatchesEmailPattern(s) {
      var a, d :| EmailShapeAt(s, a, d);
      assert s[a..a + 1] == "@";
      assert OccursAt(s, "@", a);
      assert false;
    }
  }

  lemma EmailAtFirstAt(s: string, a: nat, ok: bool)
    requires OccursAt(s, "@", a)
    requires forall k :: 0 <= k < a ==> !OccursAt(s, "@", k)
    requires ok == (0 < a && Plain(s[..a]) && Plain(s[a + 1..]) && HasInnerDot(s[a + 1..]))
    ensures ok <==> MatchesEmailPattern(s)
  {
    if ok {
      AcceptedHasShape(s, a);
    }
    if MatchesEmailPattern(s) {
      var a', d :| EmailShapeAt(s, a', d);
      ShapeAtFirstAt(s, a, a', d);
      ShapeAccepted(s, a, d);
    }
  }

  /** An address the validator accepts, split at its first '@', has the
      shape of the pattern with the domain's inner dot. */
  lemma AcceptedHasShape(s: string, a: nat)
    requires OccursAt(s, "@", a)
    requires 0 < a && Plain(s[..a]) && Plain(s[a + 1..]) && HasInnerDot(s[a + 1..])
    ensures MatchesEmailPattern(s)
  {
    var domain := s[a + 1..];
    var j :| 0 < j < |domain| - 1 && domain[j] == '.';
    var d := a + 1 + j;
    assert s[a + 1..d] == domain[..j];
    assert s[d + 1..] == domain[j + 1..];
    assert s[a] == s[a..a + 1][0];
    assert EmailShapeAt(s, a, d);
  }

  /** The '@' of any match of the pattern is the first '@'. */
  lemma ShapeAtFirstAt(s: string, a: nat, a': int, d: int)
    requires OccursAt(s, "@", a)
    requires forall k :: 0 <= k < a ==> !OccursAt(s, "@", k)
    requires EmailShapeAt(s, a', d)
    ensures a' == a
  {
    assert s[a'..a' + 1] == "@";
    assert OccursAt(s, "@", a');
    assert s[a] == s[a..a + 1][0];
  }

  /** A match of the pattern at the first '@' passes the validator. */
  lemma ShapeAccepted(s: string, a: nat, d: int)
    requires EmailShapeAt(s, a, d)
    ensures 0 < a && Plain(s[..a]) && Plain(s[a + 1..]) && HasInnerDot(s[a + 1..])
  {
  }

  // ---------------------------------------------------------------------------
  // The error map of one submit attempt

  /** The form passes validation: a non-blank name, a valid mobile number and a
      valid email address. */
  predicate Acceptable(d: FormData) {
    !IsBlank(d.name) && ValidateMobileNumber(d.mobileNumber) && ValidateEmail(d.email)
  }

  /** `m` is the error map `validateForm` reports for `d`. */
  ghost predicate ReportsErrors(d: FormData, m: map<Field, ErrorText>) {
    ErrorMapFor(IsBlank(d.name),
                IsBlank(d.mobileNumber), ValidateMobileNumber(d.mobileNumber),
                IsBlank(d.email), ValidateEmail(d.email), m)
  }

  /** The error map for given outcomes of the checks: only required fields
      appear, each exactly when its check fails, with the "required" message
      when the value is blank and the format message otherwise. */
  predicate ErrorMapFor(nameBlank: bool, mobileBlank: bool, mobileOk: bool,
                        emailBlank: bool, emailOk: bool, m: map<Field, ErrorText>)
  {
    && m.Keys <= RequiredFields
    && (Name in m <==> nameBlank)
    && (Name in m ==> m[Name] == NameRequired)
    && (MobileNumber in m <==> !mobileOk)
    && (MobileNumber in m ==> m[MobileNumber] == if mobileBlank then MobileRequired else MobileInvalid)
    && (Email in m <==> !emailOk)
    && (Email in m ==> m[Email] == if emailBlank then EmailRequired else EmailInvalid)
  }

  /** A blank value has no digit, so it never passes the mobile-number check. */
  lemma BlankMobileInvalid(s: string)
    requires IsBlank(s)
    ensures !ValidateMobileNumber(s)
  {
    TrimSpec(s);
    ValidateMobileNumberSpec(s);
    assert AllWhiteSpace(s);
    assert DigitPositions(s) == {} by {
      forall i | 0 <= i < |s| ensures !IsDigit(s[i]) {
        assert IsWhiteSpace(s[i]);
      }
    }
  }

  /** A blank value has no non-blank local part, so it never passes the email
      check. */
  lemma BlankEmailInvalid(s: string)
    requires IsBlank(s)
    ensures !ValidateEmail(s)
  {
    TrimSpec(s);
    ValidateEmailMatchesPattern(s);
  }

  /** The statements of `validateForm` up to `setErrors`: build the map field by
      field, the "required" test taking precedence over the format test. */
  method ComputeErrors(d: FormData) returns (newErrors: map<Field, ErrorText>)
    ensures ReportsErrors(d, newErrors)
    ensures newErrors == map[] <==> Acceptable(d)
  {
    newErrors := map[];

    if IsBlank(d.name) {
      newErrors := newErrors[Name := NameRequired];
    }

    if IsBlank(d.mobileNumber) {
      BlankMobileInvalid(d.mobileNumber);
      newErrors := newErrors[MobileNumber := MobileRequired];
    } else if !ValidateMobileNumber(d.mobileNumber) {
      newErrors := newErrors[MobileNumber := MobileInvalid];
    }

    if IsBlank(d.email) {
      BlankEmailInvalid(d.email);
      newErrors := newErrors[Email := EmailRequired];
    } else if !ValidateEmail(d.email) {
      newErrors := newErrors[Email := EmailInvalid];
    }

    assert newErrors == map[] ==> Acceptable(d) by {
      if !Acceptable(d) {
        assert Name in newErrors || MobileNumber in newErrors || Email in newErrors;
      }
    }
  }

  /** The outcomes of the three checks determine the error map. */
  lemma ErrorMapUnique(nameBlank: bool, mobileBlank: bool, mobileOk: bool,
                         emailBlank: bool, emailOk: bool,
                         m: map<Field, ErrorText>, m': map<Field, ErrorText>)
    requires ErrorMapFor(nameBlank, mobileBlank, mobileOk, emailBlank, emailOk, m)
    requires ErrorMapFor(nameBlank, mobileBlank, mobileOk, emailBlank, emailOk, m')
    ensures m == m'
  {
  }

  /** Two maps that both report the errors of `d` are the same map. */
  lemma ReportsErrorsUnique(d: FormData, m: map<Field, ErrorText>, m': map<Field, ErrorText>)
    requires ReportsErrors(d, m) && ReportsErrors(d, m')
    ensures m == m'
  {
  }
}
