// The sign-in page js/login.js: the registration checks and what is kept in
// the browser after a successful sign-in or registration.
module Login {
  import opened Wrappers
  import Profile

  datatype RegisterVerdict = Mismatch | TooShort | SendRegister

  /** Registration: mismatched passwords first, then one under eight characters; only then is a request sent. */
  function CheckRegistration(password: string, confirm: string): (v: RegisterVerdict)
    ensures v == Mismatch <==> password != confirm
    ensures v == TooShort <==> password == confirm && |password| < 8
    ensures v == SendRegister <==> password == confirm && |password| >= 8
  {
    if password != confirm then Mismatch
    else if |password| < 8 then TooShort
    else SendRegister
  }

  /**
   * Registration and the profile's password change send a request on exactly
   * the same inputs; they test in opposite orders, so a short mismatched pair
   * is reported as a mismatch on one page and as too short on the other.
   */
  lemma ChecksAgreeOnWhatIsSent(password: string, confirm: string)
    ensures CheckRegistration(password, confirm) == SendRegister <==>
      Profile.CheckNewPassword(password, confirm) == Profile.SendChange
    ensures password != confirm && |password| < 8 ==>
      CheckRegistration(password, confirm) == Mismatch && Profile.CheckNewPassword(password, confirm) == Profile.TooShort
  {
  }

  /** The error shown for a refused sign-in: the server's message, or the default when it sends none. */
  function RefusalText(message: Option<string>, default: string): (r: string)
    ensures message.Some? && message.value != [] ==> r == message.value
    ensures message.None? || message.value == [] ==> r == default
  {
    if message.Some? && message.value != [] then message.value else default
  }

  /** The two entries of the browser's storage the sign-in page writes. */
  class Session {
    var token: Option<string>
    var user: Option<Profile.User>

    constructor (token: Option<string>, user: Option<Profile.User>)
      ensures this.token == token && this.user == user
    {
      this.token := token;
      this.user := user;
    }

    /** An answer to a sign-in or a registration: an OK answer stores both its token and its user, any other stores nothing. */
    method Answer(ok: bool, newToken: string, newUser: Profile.User)
      modifies this
      ensures ok ==> token == Some(newToken) && user == Some(newUser)
      ensures !ok ==> token == old(token) && user == old(user)
    {
      if ok {
        token := Some(newToken);
        user := Some(newUser);
      }
    }
  }
}
