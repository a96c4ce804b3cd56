/**
 * The six request handlers as transitions of the store: each takes the
 * snapshot before the request (and the request body) and gives the snapshot
 * after it together with the status code and payload returned. Every
 * refusal (401, 404, 422) returns the snapshot it was given: either the
 * handler returns before touching the database, or the database rolls the
 * attempted write back. Of the crashes (500), the one in login and the
 * failed commit of an out-of-range minutes value change nothing, while the
 * missing owner in recipe creation is found after the commit.
 */
module Handlers {
  import opened Wrappers
  import opened Credentials
  import opened Models
  import opened Database

  const OK := 200
  const CREATED := 201
  const NO_CONTENT := 204
  const UNAUTHORIZED := 401
  const NOT_FOUND := 404
  const UNPROCESSABLE := 422
  /** An exception that no handler catches, turned into a response by the framework. */
  const SERVER_ERROR := 500

  const MISSING_CREDENTIALS := "Username and password are required"
  const DUPLICATE_USERNAME := "Username already exists"
  const NOT_LOGGED_IN := "Unauthorized"
  const USER_NOT_FOUND := "User not found"
  const INVALID_CREDENTIALS := "Invalid username or password"
  const INVALID_RECIPE := "Invalid recipe data"

  /** A recipe as the API shows it, with its owner's public fields embedded. */
  datatype RecipeView = RecipeView(id: nat, title: string, instructions: string, minutes: int, user: PublicUser)

  datatype Payload =
    | Error(message: string)
    | UserBody(user: PublicUser)
    | RecipeBody(recipe: RecipeView)
    | RecipeList(items: seq<RecipeView>)
    | Empty
    | Crash

  datatype Response = Response(status: int, payload: Payload)

  /** The JSON bodies, each field absent or present. */
  datatype SignupRequest = SignupRequest(username: Option<string>, password: Option<string>, bio: Option<string>, imageUrl: Option<string>)
  datatype LoginRequest = LoginRequest(username: Option<string>, password: Option<string>)
  datatype RecipeRequest = RecipeRequest(title: Option<string>, instructions: Option<string>, minutes: Option<int>)

  function View(r: Recipe, owner: PublicUser): RecipeView
  {
    RecipeView(r.id, r.title, r.instructions, r.minutes, owner)
  }

  /** `data.get('minutes_to_complete') or 0`: an absent or zero value becomes 0. */
  function MinutesOrZero(minutes: Option<int>): (m: int)
    ensures minutes.None? ==> m == 0
    ensures minutes.Some? ==> m == minutes.value
  {
    if minutes.None? || minutes.value == 0 then 0 else minutes.value
  }

  /**
   * POST /signup. The setter raises ValueError on a password the library
   * refuses; the handler answers 422 with its message before anything is
   * added. A violated unique constraint is rolled back.
   */
  function Signup(st: Store, body: SignupRequest, bc: Bcrypt, salt: Salt): (r: (Store, Response))
    ensures r.1.status == CREATED || r.1.status == UNPROCESSABLE
    ensures r.1.status == UNPROCESSABLE ==> r.0 == st
    ensures r.1.status == CREATED ==> r.0.recipes == st.recipes && r.0.session == Some(st.nextUserId)
  {
    if !Present(body.username) || !Present(body.password) then
      (st, Response(UNPROCESSABLE, Error(MISSING_CREDENTIALS)))
    else
      match HashPassword(bc, body.password, salt)
      case Failure(e) => (st, Response(UNPROCESSABLE, Error(e)))
      case Success(hash) =>
        if FindByUsername(st.users, body.username.value).Some? then
          (st, Response(UNPROCESSABLE, Error(DUPLICATE_USERNAME)))
        else
          var row := UserRow(st.nextUserId, body.username.value, hash, body.bio, body.imageUrl);
          (st.(users := st.users + [row], session := Some(row.id), nextUserId := st.nextUserId + 1),
           Response(CREATED, UserBody(row.Public())))
  }

  /** GET /check_session: only reads the store. */
  function CheckSession(st: Store): (r: Response)
    ensures r.status == OK || r.status == UNAUTHORIZED || r.status == NOT_FOUND
    ensures r.status == OK <==> r.payload.UserBody?
  {
    match SessionUser(st.session)
    case None => Response(UNAUTHORIZED, Error(NOT_LOGGED_IN))
    case Some(uid) =>
      match FindById(st.users, uid)
      case None => Response(NOT_FOUND, Error(USER_NOT_FOUND))
      case Some(i) => Response(OK, UserBody(st.users[i].Public()))
  }

  /**
   * POST /login. A missing username matches no row. For a matching row, the
   * check raises on a missing password or on one the library refuses, and
   * nothing catches it.
   */
  function Login(st: Store, body: LoginRequest, bc: Bcrypt): (r: (Store, Response))
    ensures r.1.status == OK || r.1.status == UNAUTHORIZED || r.1.status == SERVER_ERROR
    ensures r.1.status != OK ==> r.0 == st
    ensures r.1.status == OK ==> r.0 == st.(session := r.0.session) && r.0.session.Some?
  {
    var found := if body.username.None? then None else FindByUsername(st.users, body.username.value);
    match found
    case None => (st, Response(UNAUTHORIZED, Error(INVALID_CREDENTIALS)))
    case Some(i) =>
      if body.password.None? then (st, Response(SERVER_ERROR, Crash))
      else
        match bc.check(st.users[i].passwordHash, body.password.value)
        case Failure(_) => (st, Response(SERVER_ERROR, Crash))
        case Success(accepted) =>
          if accepted then
            (st.(session := Some(st.users[i].id)), Response(OK, UserBody(st.users[i].Public())))
          else (st, Response(UNAUTHORIZED, Error(INVALID_CREDENTIALS)))
  }

  /** DELETE /logout: tests whether the key is present, not whether it is truthy. */
  function Logout(st: Store): (r: (Store, Response))
    ensures r.1.status == NO_CONTENT || r.1.status == UNAUTHORIZED
    ensures r.0 == st.(session := None)
  {
    if st.session.Some? then (st.(session := None), Response(NO_CONTENT, Empty))
    else (st, Response(UNAUTHORIZED, Error(NOT_LOGGED_IN)))
  }

  /** GET /recipes: only reads the store. */
  function ListRecipes(st: Store): (r: Response)
    ensures r.status == OK || r.status == UNAUTHORIZED || r.status == NOT_FOUND
    ensures r.status == OK <==> r.payload.RecipeList?
    ensures r.status == OK ==> |r.payload.items| <= |st.recipes|
  {
    match SessionUser(st.session)
    case None => Response(UNAUTHORIZED, Error(NOT_LOGGED_IN))
    case Some(uid) =>
      match FindById(st.users, uid)
      case None => Response(NOT_FOUND, Error(USER_NOT_FOUND))
      case Some(i) =>
        var owned := OwnedBy(st.recipes, uid);
        Response(OK, RecipeList(seq(|owned|, k requires 0 <= k < |owned| => View(owned[k], st.users[i].Public()))))
  }

  /**
   * POST /recipes. A minutes value outside the column's range makes the
   * commit raise an error the handler does not catch, so nothing is stored.
   * The session user is not looked up before the insert: when it is missing,
   * the recipe is committed and building the response raises.
   */
  function CreateRecipe(st: Store, body: RecipeRequest): (r: (Store, Response))
    ensures r.1.status in {CREATED, UNAUTHORIZED, UNPROCESSABLE, SERVER_ERROR}
    ensures r.1.status == UNAUTHORIZED || r.1.status == UNPROCESSABLE ==> r.0 == st
    ensures r.0.users == st.users && r.0.session == st.session
    ensures |r.0.recipes| <= |st.recipes| + 1
  {
    match SessionUser(st.session)
    case None => (st, Response(UNAUTHORIZED, Error(NOT_LOGGED_IN)))
    case Some(uid) =>
      var minutes := MinutesOrZero(body.minutes);
      if !Present(body.title) || !Present(body.instructions) then
        (st, Response(UNPROCESSABLE, Error(INVALID_RECIPE)))
      else
        match NewRecipe(st.nextRecipeId, body.title.value, body.instructions.value, minutes, uid)
        case Failure(_) => (st, Response(UNPROCESSABLE, Error(INVALID_RECIPE)))
        case Success(r) =>
          if !FitsColumn(r.minutes) then (st, Response(SERVER_ERROR, Crash))
          else
          var st' := st.(recipes := st.recipes + [r], nextRecipeId := st.nextRecipeId + 1);
          match FindById(st.users, uid)
          case None => (st', Response(SERVER_ERROR, Crash))
          case Some(i) => (st', Response(CREATED, RecipeBody(View(r, st.users[i].Public()))))
  }
}
