/** Client runs of the server object, showing what callers can conclude from the handlers' contracts alone. */
module Scenarios {
  import opened Wrappers
  import opened Credentials
  import opened Models
  import opened Database
  import opened Handlers
  import App

  /**
   * Setting a password and then checking it: under the soundness assumption
   * the round trip succeeds exactly for a non-empty password the library
   * accepts; any other is refused by the setter and leaves the object
   * without a hash.
   */
  method PasswordRoundTrip(bc: Bcrypt, password: string, salt: Salt) returns (ok: bool)
    requires Sound(bc)
    ensures ok <==> password != "" && bc.hash(password, salt).Success?
  {
    var user := new User(1, "ana", None, None);
    var setter := user.SetPassword(bc, Some(password), salt);
    if setter.Failure? {
      assert user.passwordHash == None;
      return false;
    }
    var checked := user.Authenticate(bc, password);
    ok := checked == Success(true);
  }

  /**
   * Sign up "ana", post a recipe without a title (refused, nothing stored),
   * then a recipe titled "Soup" with exactly 50 characters of instructions
   * and no minutes (created, with minutes 0). The library is taken to
   * accept the password "pw123".
   */
  method AnaScenario(bc: Bcrypt, salt: Salt) returns (signup: Response, noTitle: Response, soup: Response)
    requires bc.hash("pw123", salt).Success?
    ensures signup.status == CREATED && signup.payload == UserBody(PublicUser(1, "ana", None, None))
    ensures noTitle == Response(UNPROCESSABLE, Error(INVALID_RECIPE))
    ensures soup.status == CREATED && soup.payload.RecipeBody?
    ensures soup.payload.recipe.title == "Soup" && soup.payload.recipe.minutes == 0
    ensures soup.payload.recipe.user == signup.payload.user
  {
    var server := new App.Server(bc);
    signup := server.Signup(SignupRequest(Some("ana"), Some("pw123"), None, None), salt);
    assert server.session == Some(1) && |server.users| == 1 && server.users[0].id == 1;
    assert signup.payload.user == server.users[0].Public();
    noTitle := server.CreateRecipe(RecipeRequest(None, Some(seq(60, _ => 'x')), None));
    assert server.recipes == [];
    soup := server.CreateRecipe(RecipeRequest(Some("Soup"), Some(seq(50, _ => 'x')), None));
    assert |server.recipes| == 1;
  }

  /**
   * After signing up (the library accepting "pw123"), a logout answers 204,
   * a second one 401, and the session check 401.
   */
  method LogoutScenario(bc: Bcrypt, salt: Salt) returns (first: Response, second: Response, check: Response)
    requires bc.hash("pw123", salt).Success?
    ensures first == Response(NO_CONTENT, Empty)
    ensures second == Response(UNAUTHORIZED, Error(NOT_LOGGED_IN))
    ensures check == Response(UNAUTHORIZED, Error(NOT_LOGGED_IN))
  {
    var server := new App.Server(bc);
    var created := server.Signup(SignupRequest(Some("ana"), Some("pw123"), None, None), salt);
    assert server.session == Some(1);
    first := server.Logout();
    second := server.Logout();
    check := CheckSession(server.Snapshot());
  }
}
