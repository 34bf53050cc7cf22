/**
  The shapes of the form's state: a test record (also used as the draft bound to
  the form), the five editable fields, and the per-field error messages.
 */
module Records {
  import opened Wrappers

  /** One test entry. `testId == None` is the form's `null`: the draft is in create mode. */
  datatype Record = Record(
    testId: Option<int>,
    testName: string,
    testType: string,
    testerEmail: string,
    testerMobile: string,
    alternativeNo: string,
    creationDate: string,
    lastUpdationDate: string)

  /** The record the form starts from and is reset to after an update or a delete. */
  const EmptyRecord := Record(None, "", "", "", "", "", "", "")

  /** The inputs that carry a change handler; the two dates are hidden inputs. */
  datatype Field = TestName | TestType | TesterEmail | TesterMobile | AlternativeNo

  function FieldValue(r: Record, f: Field): string {
    match f
    case TestName => r.testName
    case TestType => r.testType
    case TesterEmail => r.testerEmail
    case TesterMobile => r.testerMobile
    case AlternativeNo => r.alternativeNo
  }

  /** The object spread `{ ...r, [f]: v }`: only field `f` takes the new value. */
  function WithField(r: Record, f: Field, v: string): (r': Record)
    ensures FieldValue(r', f) == v
    ensures forall g :: g != f ==> FieldValue(r', g) == FieldValue(r, g)
    ensures r'.testId == r.testId
    ensures r'.creationDate == r.creationDate && r'.lastUpdationDate == r.lastUpdationDate
  {
    match f
    case TestName => r.(testName := v)
    case TestType => r.(testType := v)
    case TesterEmail => r.(testerEmail := v)
    case TesterMobile => r.(testerMobile := v)
    case AlternativeNo => r.(alternativeNo := v)
  }

  /** One message per editable field; the empty string means "no error". */
  datatype Errors = Errors(
    testName: string,
    testType: string,
    testerEmail: string,
    testerMobile: string,
    alternativeNo: string)
  {
    function Get(f: Field): string {
      match f
      case TestName => testName
      case TestType => testType
      case TesterEmail => testerEmail
      case TesterMobile => testerMobile
      case AlternativeNo => alternativeNo
    }

    /** `{ ...errors, [f]: msg }`. */
    function Set(f: Field, msg: string): (e: Errors)
      ensures e.Get(f) == msg
      ensures forall g :: g != f ==> e.Get(g) == Get(g)
    {
      match f
      case TestName => this.(testName := msg)
      case TestType => this.(testType := msg)
      case TesterEmail => this.(testerEmail := msg)
      case TesterMobile => this.(testerMobile := msg)
      case AlternativeNo => this.(alternativeNo := msg)
    }

    /** `Object.values(errors).some(e => e)` is false. */
    predicate AllClear()
      ensures AllClear() <==> forall f :: Get(f) == ""
    {
      assert (forall f :: Get(f) == "") ==> testName == "" && testType == "" && testerEmail == "" by {
        if forall f :: Get(f) == "" {
          assert Get(TestName) == "" && Get(TestType) == "" && Get(TesterEmail) == "";
        }
      }
      assert (forall f :: Get(f) == "") ==> testerMobile == "" && alternativeNo == "" by {
        if forall f :: Get(f) == "" {
          assert Get(TesterMobile) == "" && Get(AlternativeNo) == "";
        }
      }
      testName == "" && testType == "" && testerEmail == "" && testerMobile == "" && alternativeNo == ""
    }
  }

  const NoErrors := Errors("", "", "", "", "")
}
