/**
 * The registration form of the client
 * (client/src/app/register/register.component.ts). The HTTP outcome of the
 * `/register` request is a parameter of the two reply methods.
 */
module Register {
  import opened Wrappers

  /** The body posted to `/register`. */
  datatype RegisterRequest = RegisterRequest(username: string, password: string, displayName: string)

  /** The credentials handed to the authentication service after success. */
  datatype Credentials = Credentials(username: string, password: string)

  const MismatchMessage := "Les mots de passes ne correspondent pas"

  /** The form's signals: submitting flag, error text and the four fields. */
  class RegisterComponent {
    var submitting: bool
    var error: Option<string>
    var username: string
    var password: string
    var confirmPassword: string
    var displayName: string

    /** Lines 15-21: idle, no error, empty fields. */
    constructor ()
      ensures !submitting && error == None
      ensures username == "" && password == "" && confirmPassword == "" && displayName == ""
    {
      submitting := false;
      error := None;
      username, password, confirmPassword, displayName := "", "", "", "";
    }

    /** Two-way binding of the form fields. */
    method Edit(user: string, pass: string, confirm: string, display: string)
      modifies this
      ensures username == user && password == pass && confirmPassword == confirm && displayName == display
      ensures submitting == old(submitting) && error == old(error)
    {
      username, password, confirmPassword, displayName := user, pass, confirm, display;
    }

    /**
     * `submit` up to the request (lines 32-49): a password that differs from
     * its confirmation sends nothing, ends the submission and shows the
     * mismatch message; otherwise the current fields are posted and the form
     * stays submitting.
     */
    method Submit() returns (request: Option<RegisterRequest>)
      modifies this
      ensures old(password) != old(confirmPassword) <==> request.None?
      ensures request.None? ==> !submitting && error == Some(MismatchMessage)
      ensures request.Some? ==>
        request.value == RegisterRequest(username, password, displayName) && submitting && error == old(error)
      ensures username == old(username) && password == old(password)
      ensures confirmPassword == old(confirmPassword) && displayName == old(displayName)
    {
      submitting := true;
      var pass := password;
      if pass != confirmPassword {
        submitting := false;
        error := Some(MismatchMessage);
        return None;
      }
      var user := username;
      return Some(RegisterRequest(user, pass, displayName));
    }

    /**
     * The `next` handler (lines 50-57): the submission ends without error and
     * the login goes out with the username and password that were posted.
     */
    method OnSuccess(sent: RegisterRequest) returns (login: Credentials)
      modifies this
      ensures !submitting && error == None
      ensures login.username == sent.username && login.password == sent.password
      ensures username == old(username) && password == old(password)
      ensures confirmPassword == old(confirmPassword) && displayName == old(displayName)
    {
      submitting := false;
      error := None;
      login := Credentials(sent.username, sent.password);
    }

    /**
     * The `error` handler (lines 58-63): the submission ends and the error
     * shows the `error` field of the reply body (absent when the body has none).
     */
    method OnError(bodyError: Option<string>)
      modifies this
      ensures !submitting && error == bodyError
      ensures username == old(username) && password == old(password)
      ensures confirmPassword == old(confirmPassword) && displayName == old(displayName)
    {
      submitting := false;
      error := bodyError;
    }
  }
}
