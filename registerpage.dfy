/** The student registration page: the form's validation rules and the
    three-step flow (connect the wallet, fill in the form, done). */
module RegisterPage {
  import opened Common

  datatype RegisterForm = RegisterForm(name: string, email: string, studentId: string, department: string)

  /** The values the form starts with. */
  const DefaultForm := RegisterForm("", "", "", "")

  datatype Field = NameField | EmailField | StudentIdField | DepartmentField

  datatype Issue = Issue(field: Field, message: string)

  const NameTooShort := "Name must be at least 2 characters."
  const EmailInvalid := "Please enter a valid email address."
  const IdTooShort := "Student ID must be at least 5 characters."
  const IdBadChars := "Student ID can only contain letters, numbers, and hyphens."

  /** One of the four messages the schema can give; none is about the
      department. */
  predicate KnownIssue(x: Issue) {
    x == Issue(NameField, NameTooShort) || x == Issue(EmailField, EmailInvalid)
    || x == Issue(StudentIdField, IdTooShort) || x == Issue(StudentIdField, IdBadChars)
  }

  /** A character of `[A-Za-z0-9-]`. */
  predicate StudentIdChar(c: char) {
    'A' <= c <= 'Z' || 'a' <= c <= 'z' || '0' <= c <= '9' || c == '-'
  }

  /** `/^[A-Za-z0-9-]+$/` */
  function IdPattern(s: string): (ok: bool)
    ensures ok <==> |s| >= 1 && forall i :: 0 <= i < |s| ==> StudentIdChar(s[i])
  {
    if s == [] then false
    else StudentIdChar(s[0]) && (|s| == 1 || IdPattern(s[1..]))
  }

  /** The issues the schema reports, field by field, each string check of
      a field on its own. The e-mail format check is an outside judgement
      passed in as `emailOk`; the department accepts any string. */
  function FormIssues(f: RegisterForm, emailOk: bool): (issues: seq<Issue>)
    ensures Issue(NameField, NameTooShort) in issues <==> |f.name| < 2
    ensures Issue(EmailField, EmailInvalid) in issues <==> !emailOk
    ensures Issue(StudentIdField, IdTooShort) in issues <==> |f.studentId| < 5
    ensures Issue(StudentIdField, IdBadChars) in issues <==>
      (f.studentId == [] || exists i :: 0 <= i < |f.studentId| && !StudentIdChar(f.studentId[i]))
    ensures forall x :: x in issues ==> KnownIssue(x)
  {
    Check(|f.name| < 2, Issue(NameField, NameTooShort))
    + Check(!emailOk, Issue(EmailField, EmailInvalid))
    + Check(|f.studentId| < 5, Issue(StudentIdField, IdTooShort))
    + Check(!IdPattern(f.studentId), Issue(StudentIdField, IdBadChars))
  }

  /** One check of the schema: its issue when it fails. */
  function Check(fails: bool, issue: Issue): (r: seq<Issue>)
    ensures forall x :: x in r <==> fails && x == issue
  {
    if fails then [issue] else []
  }

  /** What a submittable form is, stated on its fields. */
  predicate FormAccepted(f: RegisterForm, emailOk: bool) {
    |f.name| >= 2 && emailOk && |f.studentId| >= 5
    && forall i :: 0 <= i < |f.studentId| ==> StudentIdChar(f.studentId[i])
  }

  /** The form goes through exactly when the schema reports nothing. */
  lemma FormIssuesEmptyIff(f: RegisterForm, emailOk: bool)
    ensures FormIssues(f, emailOk) == [] <==> FormAccepted(f, emailOk)
  {
    var issues := FormIssues(f, emailOk);
    if issues != [] {
      assert issues[0] in issues;
    }
  }

  /** The untouched form reports the name, both student-id checks and (when
      the e-mail check refuses "") the e-mail, but never the department; an
      empty department does not stop a submission. */
  lemma DefaultFormIssues()
    ensures FormIssues(DefaultForm, false) ==
      [Issue(NameField, NameTooShort), Issue(EmailField, EmailInvalid),
       Issue(StudentIdField, IdTooShort), Issue(StudentIdField, IdBadChars)]
    ensures FormAccepted(RegisterForm("Al", "a@b.c", "CS-01", ""), true)
  {}

  /** The three steps of the page. */
  datatype Step = Connect | Register | Success

  /** Steps are only ever taken forwards. */
  function Rank(s: Step): nat {
    match s
    case Connect => 0
    case Register => 1
    case Success => 2
  }

  /** The page's effect on a change of the wallet state: a connected wallet
      moves the first step on, and a registered student is done. */
  function EffectStep(step: Step, isConnected: bool, isRegistered: bool): (r: Step)
    ensures isRegistered ==> r == Success
    ensures !isRegistered ==> (r == Register <==> (step == Register || (step == Connect && isConnected)))
    ensures Rank(r) >= Rank(step)
  {
    var s := if isConnected && step == Connect then Register else step;
    if isRegistered then Success else s
  }

  /** Running the effect again on its own outcome changes nothing. */
  lemma EffectIdempotent(step: Step, isConnected: bool, isRegistered: bool)
    ensures var s := EffectStep(step, isConnected, isRegistered);
      EffectStep(s, isConnected, isRegistered) == s
  {}

  /** Nothing leaves the final step. */
  lemma SuccessIsFinal(isConnected: bool, isRegistered: bool)
    ensures EffectStep(Success, isConnected, isRegistered) == Success
  {}

  class RegistrationPage {
    var step: Step

    /** The page opens on the form when a wallet is already connected. */
    constructor(isConnected: bool)
      ensures step == (if isConnected then Register else Connect)
    {
      step := if isConnected then Register else Connect;
    }

    /** `handleConnectWallet`: the button is shown on the first step only.
        `resolved` is whether the context's `connectWallet` promise
        resolved; the page moves on when it does and stays when it rejects.
        The context shipped with the page catches every failure itself and
        always resolves, so there the page always moves on. */
    method HandleConnectWallet(resolved: bool)
      requires step == Connect
      modifies this
      ensures step == (if resolved then Register else Connect)
      ensures Rank(step) >= Rank(old(step))
    {
      if resolved {
        step := Register;
      }
    }

    /** The form's submit: shown on the second step only. A form with
        issues is not sent. `resolved` is whether the `registerStudent`
        promise resolved: the flow ends when it does, and a rejection keeps
        the form. The context shipped with the page supplies no
        `registerStudent`, so there every call throws and `resolved` is
        false. */
    method Submit(f: RegisterForm, emailOk: bool, resolved: bool) returns (sent: Option<RegisterForm>)
      requires step == Register
      modifies this
      ensures sent.Some? <==> FormIssues(f, emailOk) == []
      ensures sent.Some? ==> sent.value == f
      ensures step == (if sent.Some? && resolved then Success else Register)
      ensures Rank(step) >= Rank(old(step))
    {
      if FormIssues(f, emailOk) == [] {
        sent := Some(f);
        if resolved {
          step := Success;
        }
      } else {
        sent := None;
      }
    }

    /** The effect that watches the wallet state. */
    method Effect(isConnected: bool, isRegistered: bool)
      modifies this
      ensures step == EffectStep(old(step), isConnected, isRegistered)
    {
      if isConnected && step == Connect {
        step := Register;
      }
      if isRegistered {
        step := Success;
      }
    }
  }

  /** A visit with a wallet that connects and a valid form ends on the
      final step, and a later effect keeps it there. */
  method HappyPath(f: RegisterForm)
    requires FormAccepted(f, true)
  {
    var page := new RegistrationPage(false);
    page.HandleConnectWallet(true);
    FormIssuesEmptyIff(f, true);
    var sent := page.Submit(f, true, true);
    assert sent == Some(f);
    page.Effect(true, false);
    assert page.step == Success;
  }
}
