/**
  The form's two rule sets: the per-keystroke check of one field, and the
  separate, weaker check of the whole draft when it is submitted.
 */
module Validation {
  import opened Text
  import opened Patterns
  import opened Records

  const NameFormatMsg := "Only Character Should come."
  const TypeMembershipMsg := "Please select a valid test type."
  const EmailMsg := "Please enter a valid email address."
  const NumberMsg := "Please enter a valid 10-digit number."
  const NameRequiredMsg := "Test Name is required."
  const TypeRequiredMsg := "Test Type is required."
  const SameNumberMsg := "Alternative No. should not be the same as Tester Mobile No."

  // ---------------------------------------------------------------------------
  // Per-keystroke rules

  /** The condition under which a keystroke clears the field's error. */
  ghost predicate LiveValid(f: Field, v: string, types: seq<string>) {
    match f
    case TestName => NameShape(v)
    case TestType => v in types
    case TesterEmail => EmailShape(v)
    case TesterMobile => TenDigitShape(v)
    case AlternativeNo => TenDigitShape(v)
  }

  /** The message a keystroke reports on field `f` when the value is rejected. */
  function LiveMessage(f: Field): string {
    match f
    case TestName => NameFormatMsg
    case TestType => TypeMembershipMsg
    case TesterEmail => EmailMsg
    case TesterMobile => NumberMsg
    case AlternativeNo => NumberMsg
  }

  /** The error a keystroke records for field `f` holding `v`, given the current
      list of test types: empty exactly when the value is acceptable. */
  function LiveError(f: Field, v: string, types: seq<string>): (err: string)
    ensures err == "" <==> LiveValid(f, v, types)
    ensures err != "" ==> err == LiveMessage(f)
  {
    match f
    case TestName => if MatchesName(v) then "" else NameFormatMsg
    case TestType => if v in types then "" else TypeMembershipMsg
    case TesterEmail => MatchesEmailIff(v); if MatchesEmail(v) then "" else EmailMsg
    case TesterMobile => if MatchesTenDigits(v) then "" else NumberMsg
    case AlternativeNo => if MatchesTenDigits(v) then "" else NumberMsg
  }

  // ---------------------------------------------------------------------------
  // Submit-time rules

  /** The condition under which a submit goes through. Name and type need only a
      non-whitespace character; the alternative number need only differ from the
      mobile number after trimming, with no format of its own. */
  ghost predicate SubmitReady(d: Record) {
    && !AllSpace(d.testName)
    && !AllSpace(d.testType)
    && EmailShape(d.testerEmail)
    && TenDigitShape(d.testerMobile)
    && Trim(d.alternativeNo) != d.testerMobile
  }

  /** The required-field rule for name and type: blank after trimming. */
  function RequiredError(v: string, msg: string): (err: string)
    requires msg != ""
    ensures err == "" <==> !AllSpace(v)
    ensures err != "" ==> err == msg
  {
    if IsBlank(v) then msg else ""
  }

  /** The submit-time email rule, `!s.trim() || !regex.test(s)`: its blank test is
      subsumed by the shape test. */
  function EmailSubmitError(v: string): (err: string)
    ensures err == "" <==> EmailShape(v)
    ensures err != "" ==> err == EmailMsg
  {
    MatchesEmailIff(v);
    assert EmailShape(v) ==> !IsBlank(v) by {
      if EmailShape(v) {
        EmailShapeNotBlank(v);
      }
    }
    if IsBlank(v) || !MatchesEmail(v) then EmailMsg else ""
  }

  /** The submit-time mobile rule, `!s.trim() || !regex.test(s)`: its blank test is
      subsumed by the ten-digit test. */
  function MobileSubmitError(v: string): (err: string)
    ensures err == "" <==> TenDigitShape(v)
    ensures err != "" ==> err == NumberMsg
  {
    assert TenDigitShape(v) ==> !IsBlank(v) by {
      if TenDigitShape(v) {
        TenDigitsAreTrimmed(v);
      }
    }
    if IsBlank(v) || !MatchesTenDigits(v) then NumberMsg else ""
  }

  /** The cross-field rule: the trimmed alternative number equals the trimmed mobile number. */
  function SameNumberError(alternative: string, mobile: string): (err: string)
    ensures err == "" <==> Trim(alternative) != Trim(mobile)
    ensures err != "" ==> err == SameNumberMsg
  {
    if Trim(alternative) == Trim(mobile) then SameNumberMsg else ""
  }

  /** The error set a submit computes, one rule per field. */
  function SubmitErrors(d: Record): (e: Errors)
    ensures e.testName == "" <==> !AllSpace(d.testName)
    ensures e.testType == "" <==> !AllSpace(d.testType)
    ensures e.testerEmail == "" <==> EmailShape(d.testerEmail)
    ensures e.testerMobile == "" <==> TenDigitShape(d.testerMobile)
    ensures e.alternativeNo == "" <==> Trim(d.alternativeNo) != Trim(d.testerMobile)
    ensures e.testName != "" ==> e.testName == NameRequiredMsg
    ensures e.testType != "" ==> e.testType == TypeRequiredMsg
    ensures e.testerEmail != "" ==> e.testerEmail == EmailMsg
    ensures e.testerMobile != "" ==> e.testerMobile == NumberMsg
    ensures e.alternativeNo != "" ==> e.alternativeNo == SameNumberMsg
  {
    Errors(
      testName := RequiredError(d.testName, NameRequiredMsg),
      testType := RequiredError(d.testType, TypeRequiredMsg),
      testerEmail := EmailSubmitError(d.testerEmail),
      testerMobile := MobileSubmitError(d.testerMobile),
      alternativeNo := SameNumberError(d.alternativeNo, d.testerMobile))
  }

  /** A submit is rejected exactly when one of the five submit-time conditions fails. */
  lemma SubmitGate(d: Record)
    ensures SubmitErrors(d).AllClear() <==> SubmitReady(d)
  {
    if TenDigitShape(d.testerMobile) {
      TenDigitsAreTrimmed(d.testerMobile);
    }
  }

  /** A submitted draft never stores a mobile number equal to its alternative number. */
  lemma SubmittedNumbersDiffer(d: Record)
    requires SubmitReady(d)
    ensures d.alternativeNo != d.testerMobile
  {
    TenDigitsAreTrimmed(d.testerMobile);
  }

  /** The draft used below passes every submit-time rule. */
  lemma SampleDraftReady(d: Record)
    requires d.testName == "R2" && d.testType == "PHP" && d.testerEmail == "a@b.c"
    requires d.testerMobile == "0123456789" && d.alternativeNo == ""
    ensures SubmitReady(d)
  {
    assert EmailShape(d.testerEmail) by {
      forall k | 0 <= k < |d.testerEmail| ensures !IsSpace(d.testerEmail[k]) {
        assert '!' <= d.testerEmail[k] <= '~';
      }
      assert SeparatorsAt(d.testerEmail, 1, 3);
    }
    assert !IsSpace(d.testName[0]) && !IsSpace(d.testType[0]);
    assert TenDigitShape(d.testerMobile);
    TenDigitsAreTrimmed(d.testerMobile);
    assert |Trim(d.alternativeNo)| == 0;
  }

  /** A name with a digit in it fails the keystroke check. */
  lemma DigitNameRejectedLive(name: string)
    requires name == "R2"
    ensures LiveError(TestName, name, []) == NameFormatMsg
  {
    assert !IsAsciiLetter(name[1]) && name[1] != ' ';
  }

  /** The empty alternative number fails the keystroke check. */
  lemma EmptyNumberRejectedLive(alternative: string)
    requires alternative == ""
    ensures LiveError(AlternativeNo, alternative, []) == NumberMsg
  {
    assert !TenDigitShape(alternative);
  }

  /** The submit check is weaker than the keystroke checks: a name with a digit, a
      type missing from the list and an empty alternative number, all three flagged
      while typing, pass at submit time. */
  lemma SubmitAcceptsWhatLiveRejects(d: Record)
    requires d.testName == "R2" && d.testType == "PHP" && d.testerEmail == "a@b.c"
    requires d.testerMobile == "0123456789" && d.alternativeNo == ""
    ensures SubmitErrors(d).AllClear()
    ensures LiveError(TestName, d.testName, []) == NameFormatMsg
    ensures LiveError(TestType, d.testType, []) == TypeMembershipMsg
    ensures LiveError(AlternativeNo, d.alternativeNo, []) == NumberMsg
  {
    DigitNameRejectedLive(d.testName);
    EmptyNumberRejectedLive(d.alternativeNo);
    SampleDraftReady(d);
    SubmitGate(d);
  }
}
