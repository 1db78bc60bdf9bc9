/** The sign-up form in the browser: the field update on every keystroke and
    the checks the form runs before it sends the request. */
module SignupPage {
  import opened JsText
  import Security
  import SignupRoute

  /** The four values the form checks, read from the form state. */
  datatype FormData = FormData(name: string, email: string, password: string, confirmPassword: string)

  /** Why the form refuses to send, in the order it checks. */
  datatype ClientRejection =
    | AllRequired | NameTooShort | InvalidEmail | PasswordTooShort | PasswordTooWeak | PasswordsDiffer

  /** The message the form shows for each refusal. */
  function ClientMessage(why: ClientRejection): string {
    match why
    case AllRequired => "All fields are required"
    case NameTooShort => "Name must be at least 2 characters long"
    case InvalidEmail => "Please enter a valid email address"
    case PasswordTooShort => "Password must be at least 8 characters long"
    case PasswordTooWeak => "Password must include uppercase, lowercase, number, and special character (@$!%*?&)"
    case PasswordsDiffer => "Passwords do not match"
  }

  /** One value of the form state. A key the state lacks reads as `undefined`,
      which the form treats exactly as the empty string: it fails the first
      check. */
  function FieldValue(formData: map<string, string>, key: string): string {
    if key in formData then formData[key] else ""
  }

  /** The four values `validateForm` destructures from the form state. */
  function Snapshot(formData: map<string, string>): FormData {
    FormData(FieldValue(formData, "name"), FieldValue(formData, "email"),
             FieldValue(formData, "password"), FieldValue(formData, "confirmPassword"))
  }

  /** Everything the form demands before it sends. */
  predicate Accepts(f: FormData) {
    f.name != "" && f.email != "" && f.password != "" && f.confirmPassword != ""
    && |f.name| >= 2
    && Security.MatchesEmailPattern(f.email)
    && |f.password| >= 8
    && Security.IsStrongPassword(f.password)
    && f.password == f.confirmPassword
  }

  /** `validateForm`: the first check the form fails, if any. The email is
      checked against the address pattern alone, and the name is taken as typed,
      without trimming. */
  function Validate(f: FormData): (r: Option<ClientRejection>)
    ensures r.None? <==> Accepts(f)
  {
    if f.name == "" || f.email == "" || f.password == "" || f.confirmPassword == "" then Some(AllRequired)
    else if |f.name| < 2 then Some(NameTooShort)
    else if !Security.MatchesEmailPattern(f.email) then Some(InvalidEmail)
    else if |f.password| < 8 then Some(PasswordTooShort)
    else if !Security.IsStrongPassword(f.password) then Some(PasswordTooWeak)
    else if f.password != f.confirmPassword then Some(PasswordsDiffer)
    else None
  }

  /** Each refusal is reported exactly when every earlier check passes and its
      own check fails. */
  lemma FirstFailureReported(f: FormData)
    ensures Validate(f) == Some(AllRequired) <==>
      f.name == "" || f.email == "" || f.password == "" || f.confirmPassword == ""
    ensures Validate(f) == Some(NameTooShort) <==>
      Validate(f) != Some(AllRequired) && |f.name| < 2
    ensures Validate(f) == Some(InvalidEmail) <==>
      Validate(f) !in {Some(AllRequired), Some(NameTooShort)} && !Security.MatchesEmailPattern(f.email)
    ensures Validate(f) == Some(PasswordTooShort) <==>
      Validate(f) !in {Some(AllRequired), Some(NameTooShort), Some(InvalidEmail)} && |f.password| < 8
    ensures Validate(f) == Some(PasswordTooWeak) <==>
      Validate(f) !in {Some(AllRequired), Some(NameTooShort), Some(InvalidEmail), Some(PasswordTooShort)}
      && !Security.IsStrongPassword(f.password)
    ensures Validate(f) == Some(PasswordsDiffer) <==>
      f.name != "" && f.email != "" && f.password != "" && f.confirmPassword != ""
      && |f.name| >= 2 && Security.MatchesEmailPattern(f.email) && |f.password| >= 8
      && Security.IsStrongPassword(f.password) && f.password != f.confirmPassword
  {
  }

  /** The form's strength test is the server's: a password the form sends is
      never refused by the server as weak. */
  lemma ClientPasswordPassesServer(f: FormData)
    requires Validate(f).None?
    ensures Security.IsStrongPassword(f.password)
    ensures SignupRoute.Screen(SignupRoute.Fields(Str(f.name), Str(f.email), Str(f.password)))
            != Some(SignupRoute.WeakPassword)
  {
  }

  /** The form has no length cap on the email: swapping in any well-formed
      address longer than 254 characters keeps the form satisfied, while the
      server's check refuses that address. */
  lemma ClientHasNoEmailCap(f: FormData, e: string)
    requires Validate(f).None?
    requires Security.MatchesEmailPattern(e) && |e| > Security.MaxEmailLength
    ensures Validate(f.(email := e)).None?
    ensures !Security.IsValidEmail(e)
  {
  }

  /** A name of two or more white-space characters passes the form's name check,
      but the server trims it to nothing and refuses it as too short. */
  lemma BlankNamePassesClientOnly(f: FormData)
    requires |f.name| >= 2 && forall k :: 0 <= k < |f.name| ==> IsSpace(f.name[k])
    requires f.email != "" && f.password != "" && f.confirmPassword != ""
    ensures Validate(f) != Some(AllRequired) && Validate(f) != Some(NameTooShort)
    ensures SignupRoute.Screen(SignupRoute.Fields(Str(f.name), Str(f.email), Str(f.password)))
            == Some(SignupRoute.ShortName)
  {
    BlankTrimsToEmpty(f.name);
  }

  /** White space alone trims to nothing. */
  lemma BlankTrimsToEmpty(s: string)
    requires forall k :: 0 <= k < |s| ==> IsSpace(s[k])
    ensures Trim(s) == []
  {
    TrimSpec(s);
  }

  /** `handleChange` on the form state: only the value under the input's name
      changes. */
  lemma ChangeTouchesOnlyNamedValue(formData: map<string, string>, name: string, value: string, key: string)
    ensures FieldValue(formData[name := value], key) == (if key == name then value else FieldValue(formData, key))
  {
  }

  /** Typing into one input changes only that value of what the form checks. */
  lemma SnapshotAfterChange(formData: map<string, string>, name: string, value: string)
    ensures name == "name" ==> Snapshot(formData[name := value]) == Snapshot(formData).(name := value)
    ensures name == "email" ==> Snapshot(formData[name := value]) == Snapshot(formData).(email := value)
    ensures name == "password" ==> Snapshot(formData[name := value]) == Snapshot(formData).(password := value)
    ensures name == "confirmPassword" ==>
      Snapshot(formData[name := value]) == Snapshot(formData).(confirmPassword := value)
    ensures name !in {"name", "email", "password", "confirmPassword"} ==>
      Snapshot(formData[name := value]) == Snapshot(formData)
  {
  }

  /** The component's state: the form values and the message shown. */
  class SignupForm {
    var formData: map<string, string>
    var message: string

    constructor()
      ensures formData == map["name" := "", "email" := "", "password" := "", "confirmPassword" := ""]
      ensures message == ""
    {
      formData := map["name" := "", "email" := "", "password" := "", "confirmPassword" := ""];
      message := "";
    }

    /** `handleChange`: the new state is the old one with the input's value
        under the input's name. */
    method HandleChange(name: string, value: string)
      modifies this
      ensures formData == old(formData)[name := value]
      ensures message == old(message)
    {
      formData := formData[name := value];
    }

    /** `validateForm`: answers whether the form may be sent, and on refusal
        shows the message of the first failed check. */
    method ValidateForm() returns (valid: bool)
      modifies this
      ensures formData == old(formData)
      ensures valid <==> Accepts(Snapshot(formData))
      ensures valid ==> message == old(message)
      ensures !valid ==> message == ClientMessage(Validate(Snapshot(formData)).value)
    {
      var f := Snapshot(formData);
      if f.name == "" || f.email == "" || f.password == "" || f.confirmPassword == "" {
        message := ClientMessage(AllRequired);
        return false;
      }
      if |f.name| < 2 {
        message := ClientMessage(NameTooShort);
        return false;
      }
      if !Security.MatchesEmailPattern(f.email) {
        message := ClientMessage(InvalidEmail);
        return false;
      }
      if |f.password| < 8 {
        message := ClientMessage(PasswordTooShort);
        return false;
      }
      if !Security.IsStrongPassword(f.password) {
        message := ClientMessage(PasswordTooWeak);
        return false;
      }
      if f.password != f.confirmPassword {
        message := ClientMessage(PasswordsDiffer);
        return false;
      }
      return true;
    }
  }
}
