/** The authentication slice of the frontend store: the session token, the
    signed-in user and a flag, assigned in place by its two reducers. */
module Auth {
  import opened Wrappers

  /** The user record as the API returns it. */
  datatype User = User(id: string, email: string, name: string)

  class AuthState {
    var token: Option<string>
    var user: Option<User>
    var isAuthenticated: bool

    /** The flag is set exactly when a token and a user are held. */
    predicate Consistent()
      reads this
    {
      (isAuthenticated <==> token.Some?) && (token.Some? <==> user.Some?)
    }

    /** Nobody is signed in. */
    predicate SignedOut()
      reads this
    {
      token == None && user == None && !isAuthenticated
    }

    /** `initialState`. */
    constructor ()
      ensures SignedOut() && Consistent()
    {
      token := None;
      user := None;
      isAuthenticated := false;
    }

    /** `setCredentials`: store the given token and user, and sign in. */
    method SetCredentials(newToken: string, newUser: User)
      modifies this
      ensures token == Some(newToken) && user == Some(newUser) && isAuthenticated
      ensures Consistent()
    {
      token := Some(newToken);
      user := Some(newUser);
      isAuthenticated := true;
    }

    /** `logout`: back to the initial state, from any state. */
    method Logout()
      modifies this
      ensures SignedOut() && Consistent()
    {
      token := None;
      user := None;
      isAuthenticated := false;
    }
  }
}
