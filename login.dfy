/** The role-based routing decision of the login view. Checking the
    password and opening the session are the framework's; the model takes
    their outcome as inputs. */
module Login {
  import opened Schema

  datatype LoginResult =
    | AdminDashboard     // logged in, sent to the admin dashboard
    | StudentDashboard   // logged in, sent to the student dashboard
    | NoRoleError        // authenticated but neither flag set: error message, no session
    | LoginPage          // the form is shown again, without a message

  /** `user_login`: `authenticated` is what authentication returned for an
      accepted form (`None` for wrong credentials). The admin flag is tested
      before the student flag. */
  function UserLogin(isPost: bool, formValid: bool, authenticated: Option<User>): (r: LoginResult)
    ensures r.AdminDashboard? || r.StudentDashboard? <==>
      isPost && formValid && authenticated.Some? && (authenticated.value.isAdmin || authenticated.value.isStudent)
    ensures r.AdminDashboard? ==> authenticated.Some? && authenticated.value.isAdmin
    ensures r.StudentDashboard? ==> authenticated.Some? && !authenticated.value.isAdmin && authenticated.value.isStudent
    ensures r.NoRoleError? <==>
      isPost && formValid && authenticated.Some? && !authenticated.value.isAdmin && !authenticated.value.isStudent
  {
    if isPost && formValid && authenticated.Some? then
      var user := authenticated.value;
      if user.isAdmin then AdminDashboard
      else if user.isStudent then StudentDashboard
      else NoRoleError
    else LoginPage
  }

  /** A user carrying both flags is routed as an admin. */
  lemma AdminCheckedFirst(user: User)
    requires user.isAdmin && user.isStudent
    ensures UserLogin(true, true, Some(user)) == AdminDashboard
  {
  }

  /** Wrong credentials bring back the form with no error message. */
  lemma WrongCredentialsShowForm(isPost: bool, formValid: bool)
    ensures UserLogin(isPost, formValid, None) == LoginPage
  {
  }
}
