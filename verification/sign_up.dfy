/**
 * The sign-up page's checks (frontend/src/components/SignUp.js): `validateForm` stops at the first
 * rule the form breaks and shows its message, and a form that passes is sent without its
 * confirmation field.
 */
module SignUp {
  import opened Wrappers
  import opened Text

  /** The four fields of the sign-up form. */
  datatype SignUpForm = SignUpForm(username: string, email: string, password: string, confirmPassword: string)

  /** What is sent to the server: the form without `confirmPassword`. */
  datatype SignUpPayload = SignUpPayload(username: string, email: string, password: string)

  /** One rule of the form: whether the form keeps it, and the message shown when it does not. */
  datatype Rule = Rule(kept: bool, message: string)

  /** The rules in the order the page checks them, read off as plain conditions. */
  ghost function Rules(f: SignUpForm): (rules: seq<Rule>)
    ensures |rules| == 5
  {
    [ Rule(f.username != [] && f.email != [] && f.password != [] && f.confirmPassword != [],
           "Please fill in all fields"),
      Rule(|f.username| >= 3, "Username must be at least 3 characters long"),
      Rule(MatchesEmailPattern(f.email), "Please enter a valid email address"),
      Rule(|f.password| >= 6, "Password must be at least 6 characters long"),
      Rule(f.password == f.confirmPassword, "Passwords do not match") ]
  }

  /** The message of the first rule broken, if any. */
  ghost function FirstBroken(rules: seq<Rule>): (m: Option<string>)
    ensures m.None? <==> forall k :: 0 <= k < |rules| ==> rules[k].kept
    ensures m.Some? ==> exists k :: 0 <= k < |rules| && !rules[k].kept && rules[k].message == m.value
                          && forall j :: 0 <= j < k ==> rules[j].kept
  {
    if rules == [] then None
    else if !rules[0].kept then Some(rules[0].message)
    else
      var m := FirstBroken(rules[1..]);
      assert forall k :: 1 <= k < |rules| ==> rules[k] == rules[1..][k - 1];
      if m.Some? then
        var k :| 0 <= k < |rules[1..]| && !rules[1..][k].kept && rules[1..][k].message == m.value
                 && forall j :: 0 <= j < k ==> rules[1..][j].kept;
        assert !rules[k + 1].kept && rules[k + 1].message == m.value;
        m
      else m
  }

  /**
   * `validateForm`: `None` when the form passes, otherwise the message the page shows. Nothing is
   * trimmed here; the email pattern is tested on the text as typed.
   */
  function ValidateForm(f: SignUpForm): (error: Option<string>)
    ensures error.None? <==>
      && f.username != [] && f.email != [] && f.password != [] && f.confirmPassword != []
      && |f.username| >= 3 && MatchesEmailPattern(f.email) && |f.password| >= 6
      && f.password == f.confirmPassword
  {
    EmailShapeMatchesPattern(f.email);
    if f.username == [] || f.email == [] || f.password == [] || f.confirmPassword == [] then
      Some("Please fill in all fields")
    else if |f.username| < 3 then Some("Username must be at least 3 characters long")
    else if !EmailShape(f.email) then Some("Please enter a valid email address")
    else if |f.password| < 6 then Some("Password must be at least 6 characters long")
    else if f.password != f.confirmPassword then Some("Passwords do not match")
    else None
  }

  /** The page reports exactly the first rule broken, in the order of the rules. */
  lemma ValidateFormFirstBroken(f: SignUpForm)
    ensures ValidateForm(f) == FirstBroken(Rules(f))
  {
    EmailShapeMatchesPattern(f.email);
    var rules := Rules(f);
    var r1 := rules[1..];
    var r2 := r1[1..];
    var r3 := r2[1..];
    var r4 := r3[1..];
    assert FirstBroken(r4[1..]) == None;
    assert FirstBroken(r4) == if r4[0].kept then None else Some(r4[0].message);
    assert FirstBroken(r3) == if r3[0].kept then FirstBroken(r4) else Some(r3[0].message);
    assert FirstBroken(r2) == if r2[0].kept then FirstBroken(r3) else Some(r2[0].message);
    assert FirstBroken(r1) == if r1[0].kept then FirstBroken(r2) else Some(r1[0].message);
  }

  /**
   * `handleSubmit` up to the request: a form that fails is not sent and its message is shown; one
   * that passes is sent as it was typed, minus the confirmation, and is then known to have a user
   * name of three characters or more, an email the pattern matches, and a password of six
   * characters or more that was typed twice alike.
   */
  function Submit(f: SignUpForm): (r: Result<SignUpPayload, string>)
    ensures r.Failure? <==> ValidateForm(f).Some?
    ensures r.Failure? ==> r.error == ValidateForm(f).value
    ensures r.Success? ==> r.value.username == f.username && r.value.email == f.email && r.value.password == f.password
    ensures r.Success? ==> |r.value.username| >= 3 && MatchesEmailPattern(r.value.email)
    ensures r.Success? ==> |r.value.password| >= 6 && r.value.password == f.confirmPassword
  {
    match ValidateForm(f)
    case Some(message) => Failure(message)
    case None => Success(SignUpPayload(f.username, f.email, f.password))
  }
}
