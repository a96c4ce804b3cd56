/**
 * What the handlers promise, stated over the transition functions of module
 * Handlers: the outcomes of each handler, that failures leave the store as it
 * was, and how the handlers compose.
 */
module Properties {
  import opened Wrappers
  import opened Credentials
  import opened Models
  import opened Database
  import opened Handlers
  import Invariants

  // ---------------------------------------------------------------- queries

  /** The recipe listing query keeps exactly the recipes of that user. */
  lemma {:induction false} OwnedByMembers(recipes: seq<Recipe>, userId: nat, r: Recipe)
    ensures r in OwnedBy(recipes, userId) <==> r in recipes && r.userId == userId
  {
    if recipes != [] {
      OwnedByMembers(recipes[1..], userId, r);
      assert recipes == [recipes[0]] + recipes[1..];
    }
  }

  /** The listing query keeps store order: a recipe inserted last is listed last. */
  lemma {:induction false} OwnedByAppend(recipes: seq<Recipe>, r: Recipe, userId: nat)
    ensures OwnedBy(recipes + [r], userId) == OwnedBy(recipes, userId) + (if r.userId == userId then [r] else [])
  {
    if recipes != [] {
      assert (recipes + [r])[1..] == recipes[1..] + [r];
      OwnedByAppend(recipes[1..], r, userId);
    }
  }

  /** In a valid store a username names at most one row, so the lookup finds every row that carries it. */
  lemma FindByUsernameUnique(users: seq<UserRow>, i: nat)
    requires UniqueUsernames(users) && i < |users|
    ensures FindByUsername(users, users[i].username) == Some(i)
  {
  }

  // ---------------------------------------------------------------- signup

  /**
   * Signup either creates the user and answers 201, or answers 422 and
   * changes nothing. It creates exactly when both credentials are present,
   * the library accepts the password and the username is free.
   */
  lemma SignupOutcomes(st: Store, body: SignupRequest, bc: Bcrypt, salt: Salt)
    ensures var (st', resp) := Signup(st, body, bc, salt);
      (resp.status == CREATED || resp.status == UNPROCESSABLE) &&
      (resp.status == CREATED <==>
        Present(body.username) && Present(body.password) && bc.hash(body.password.value, salt).Success? &&
        forall i :: 0 <= i < |st.users| ==> st.users[i].username != body.username.value) &&
      (resp.status == UNPROCESSABLE ==> st' == st)
  {
  }

  /** A missing or empty username or password is refused before anything is written. */
  lemma SignupRequiresCredentials(st: Store, body: SignupRequest, bc: Bcrypt, salt: Salt)
    requires !Present(body.username) || !Present(body.password)
    ensures Signup(st, body, bc, salt) == (st, Response(UNPROCESSABLE, Error(MISSING_CREDENTIALS)))
  {
  }

  /** A password the library refuses is answered with the library's message before anything is added. */
  lemma SignupRefusedPassword(st: Store, body: SignupRequest, bc: Bcrypt, salt: Salt)
    requires Present(body.username) && Present(body.password)
    requires bc.hash(body.password.value, salt).Failure?
    ensures Signup(st, body, bc, salt) == (st, Response(UNPROCESSABLE, Error(bc.hash(body.password.value, salt).error)))
  {
  }

  /**
   * A taken username is refused and the failed insert is rolled back (a
   * password the library refuses is answered before the insert is tried).
   */
  lemma SignupDuplicate(st: Store, body: SignupRequest, bc: Bcrypt, salt: Salt, i: nat)
    requires Present(body.username) && Present(body.password) && bc.hash(body.password.value, salt).Success?
    requires i < |st.users| && st.users[i].username == body.username.value
    ensures Signup(st, body, bc, salt) == (st, Response(UNPROCESSABLE, Error(DUPLICATE_USERNAME)))
  {
  }

  /**
   * A successful signup appends exactly one row, with a fresh id and the hash
   * of the password, logs the new user in, leaves the recipes alone, and
   * answers with the public fields only.
   */
  lemma SignupCreates(st: Store, body: SignupRequest, bc: Bcrypt, salt: Salt)
    requires Valid(st)
    requires Signup(st, body, bc, salt).1.status == CREATED
    ensures var (st', resp) := Signup(st, body, bc, salt);
      var row := UserRow(st.nextUserId, body.username.value, bc.hash(body.password.value, salt).value, body.bio, body.imageUrl);
      st'.users == st.users + [row] &&
      (forall i :: 0 <= i < |st.users| ==> st.users[i].id != row.id) &&
      st'.recipes == st.recipes &&
      st'.session == Some(row.id) &&
      resp.payload == UserBody(PublicUser(row.id, row.username, row.bio, row.imageUrl))
  {
  }

  /**
   * Signing up twice with one username: the second attempt is refused with
   * the store, and so the first user's row, kept as they were; once its
   * password is present and accepted by the library, the refusal is the
   * duplicate-username one.
   */
  lemma SignupTwice(st: Store, first: SignupRequest, second: SignupRequest, bc: Bcrypt, s1: Salt, s2: Salt)
    requires Signup(st, first, bc, s1).1.status == CREATED
    requires second.username == first.username
    ensures var st1 := Signup(st, first, bc, s1).0;
      var (st2, resp) := Signup(st1, second, bc, s2);
      st2 == st1 && resp.status == UNPROCESSABLE &&
      (Present(second.password) && bc.hash(second.password.value, s2).Success? ==>
         resp == Response(UNPROCESSABLE, Error(DUPLICATE_USERNAME)))
  {
    var st1 := Signup(st, first, bc, s1).0;
    assert st1.users[|st.users|].username == first.username.value;
    if Present(second.password) && bc.hash(second.password.value, s2).Success? {
      SignupDuplicate(st1, second, bc, s2, |st.users|);
    }
  }

  // ---------------------------------------------------------------- login

  /**
   * Login succeeds exactly when some row carries the username and the
   * library accepts the password against its hash; the session then names
   * that row's user.
   */
  lemma LoginSucceedsIff(st: Store, body: LoginRequest, bc: Bcrypt)
    requires Valid(st)
    ensures var (st', resp) := Login(st, body, bc);
      (resp.status == OK <==>
        body.username.Some? && body.password.Some? &&
        exists i :: 0 <= i < |st.users| && st.users[i].username == body.username.value &&
                    bc.check(st.users[i].passwordHash, body.password.value) == Success(true)) &&
      (resp.status == OK ==>
        exists i :: 0 <= i < |st.users| && st.users[i].username == body.username.value &&
                    st' == st.(session := Some(st.users[i].id)) && resp.payload == UserBody(st.users[i].Public()))
  {
  }

  /** A row that carries the username and has no earlier namesake is the one the lookup finds. */
  lemma FirstMatchFound(users: seq<UserRow>, username: string, i: nat)
    requires i < |users| && users[i].username == username
    requires forall j :: 0 <= j < i ==> users[j].username != username
    ensures FindByUsername(users, username) == Some(i)
  {
  }

  /**
   * A login crashes exactly when the username matches a row and the check
   * against the first such row raises: the password is missing, or the
   * library refuses it. Every other
   * failure gives the same answer, whether the username is unknown or the
   * password wrong. No failure changes the store or the session.
   */
  lemma LoginFailsUniformly(st: Store, body: LoginRequest, bc: Bcrypt)
    ensures var (st', resp) := Login(st, body, bc);
      (resp.status == OK || resp.status == SERVER_ERROR ||
       resp == Response(UNAUTHORIZED, Error(INVALID_CREDENTIALS))) &&
      (resp.status == SERVER_ERROR <==>
        body.username.Some? &&
        exists i :: 0 <= i < |st.users| && st.users[i].username == body.username.value &&
                    (forall j :: 0 <= j < i ==> st.users[j].username != body.username.value) &&
                    (body.password.None? || bc.check(st.users[i].passwordHash, body.password.value).Failure?)) &&
      (resp.status != OK ==> st' == st)
  {
    if body.username.Some? {
      var u := body.username.value;
      match FindByUsername(st.users, u)
      case None =>
      case Some(k) =>
        var crashes := body.password.None? || bc.check(st.users[k].passwordHash, body.password.value).Failure?;
        assert Login(st, body, bc).1.status == SERVER_ERROR <==> crashes;
        // k is the first matching row, and the only one
        assert st.users[k].username == u && forall j :: 0 <= j < k ==> st.users[j].username != u;
        forall i | 0 <= i < |st.users| && st.users[i].username == u &&
                   (forall j :: 0 <= j < i ==> st.users[j].username != u)
          ensures i == k
        {
          FirstMatchFound(st.users, u, i);
        }
    }
  }

  /** Under the assumption that the library is sound, the credentials of a signup log that user in. */
  lemma SignupThenLogin(st: Store, body: SignupRequest, bc: Bcrypt, salt: Salt)
    requires Sound(bc) && Valid(st)
    requires Signup(st, body, bc, salt).1.status == CREATED
    ensures var st1 := Signup(st, body, bc, salt).0;
      Login(st1, LoginRequest(body.username, body.password), bc) ==
        (st1, Response(OK, UserBody(PublicUser(st.nextUserId, body.username.value, body.bio, body.imageUrl))))
  {
    var st1 := Signup(st, body, bc, salt).0;
    SignupCreates(st, body, bc, salt);
    Invariants.SignupPreservesValid(st, body, bc, salt);
    FindByUsernameUnique(st1.users, |st.users|);
  }

  /**
   * Under the same assumption, any other password is refused: with the
   * uniform 401, or with a crash when the library refuses the candidate.
   */
  lemma SignupThenWrongPassword(st: Store, body: SignupRequest, bc: Bcrypt, salt: Salt, wrong: string)
    requires Sound(bc) && Valid(st)
    requires Signup(st, body, bc, salt).1.status == CREATED
    requires wrong != body.password.value
    ensures var st1 := Signup(st, body, bc, salt).0;
      var hash := bc.hash(body.password.value, salt).value;
      Login(st1, LoginRequest(body.username, Some(wrong)), bc) ==
        (st1, if bc.check(hash, wrong).Failure? then Response(SERVER_ERROR, Crash)
              else Response(UNAUTHORIZED, Error(INVALID_CREDENTIALS)))
  {
    var st1 := Signup(st, body, bc, salt).0;
    SignupCreates(st, body, bc, salt);
    Invariants.SignupPreservesValid(st, body, bc, salt);
    FindByUsernameUnique(st1.users, |st.users|);
  }

  // ---------------------------------------------------------------- session

  /** In a valid store the presence test of logout and the truthiness test of the other handlers agree. */
  lemma PresenceIsTruthiness(st: Store)
    requires Valid(st)
    ensures st.session.Some? <==> SessionUser(st.session).Some?
  {
  }

  /** Logout ends a session with 204; without one it answers 401. Two logouts in a row give 204 then 401. */
  lemma LogoutTwice(st: Store)
    requires st.session.Some?
    ensures var (st1, r1) := Logout(st);
      r1 == Response(NO_CONTENT, Empty) && st1 == st.(session := None) &&
      Logout(st1) == (st1, Response(UNAUTHORIZED, Error(NOT_LOGGED_IN)))
  {
  }

  /** After logout the session check answers 401. */
  lemma CheckSessionAfterLogout(st: Store)
    ensures CheckSession(Logout(st).0) == Response(UNAUTHORIZED, Error(NOT_LOGGED_IN))
  {
  }

  /** The session check answers 401 without a session user, 404 when that user is not stored, and 200 with the user's public fields otherwise. */
  lemma CheckSessionOutcomes(st: Store)
    ensures var resp := CheckSession(st);
      (resp.status == UNAUTHORIZED <==> SessionUser(st.session).None?) &&
      (resp.status == NOT_FOUND <==>
        SessionUser(st.session).Some? && forall i :: 0 <= i < |st.users| ==> st.users[i].id != st.session.value) &&
      (SessionUser(st.session).Some? && (exists i :: 0 <= i < |st.users| && st.users[i].id == st.session.value) ==>
        resp.status == OK) &&
      (resp.status == OK ==>
        exists i :: 0 <= i < |st.users| && st.users[i].id == st.session.value && resp.payload == UserBody(st.users[i].Public()))
  {
  }

  // ---------------------------------------------------------------- recipes

  /**
   * The listing answers 401 and 404 as the session check does; otherwise it
   * lists, in store order, exactly the recipes of the session user, each with
   * that user's public fields embedded.
   */
  lemma ListRecipesOutcomes(st: Store)
    ensures var resp := ListRecipes(st);
      (resp.status == UNAUTHORIZED <==> CheckSession(st).status == UNAUTHORIZED) &&
      (resp.status == NOT_FOUND <==> CheckSession(st).status == NOT_FOUND) &&
      (SessionUser(st.session).Some? && (exists i :: 0 <= i < |st.users| && st.users[i].id == st.session.value) ==>
        resp.status == OK) &&
      (resp.status == OK ==>
        var owned := OwnedBy(st.recipes, st.session.value);
        resp.payload.RecipeList? && |resp.payload.items| == |owned| &&
        forall k :: 0 <= k < |owned| ==>
          resp.payload.items[k] == View(owned[k], CheckSession(st).payload.user))
  {
  }

  /** No recipe of another user is ever listed: every listed entry is a stored recipe of the session user. */
  lemma ListRecipesOnlyOwn(st: Store, k: nat)
    requires ListRecipes(st).status == OK && k < |ListRecipes(st).payload.items|
    ensures var item := ListRecipes(st).payload.items[k];
      exists r :: r in st.recipes && r.userId == st.session.value && item == View(r, item.user)
  {
    var owned := OwnedBy(st.recipes, st.session.value);
    OwnedByMembers(st.recipes, st.session.value, owned[k]);
  }

  /** Without a session user, recipe creation answers 401 and changes nothing. */
  lemma CreateRecipeNeedsSession(st: Store, body: RecipeRequest)
    requires SessionUser(st.session).None?
    ensures CreateRecipe(st, body) == (st, Response(UNAUTHORIZED, Error(NOT_LOGGED_IN)))
  {
  }

  /** A missing or empty title or instructions, or instructions under 50 characters, answer 422 with nothing changed. */
  lemma CreateRecipeRejects(st: Store, body: RecipeRequest)
    requires SessionUser(st.session).Some?
    requires !Present(body.title) || !Present(body.instructions) || |body.instructions.value| < MIN_INSTRUCTIONS
    ensures CreateRecipe(st, body) == (st, Response(UNPROCESSABLE, Error(INVALID_RECIPE)))
  {
  }

  /**
   * Otherwise a minutes value outside the column's range fails the commit
   * with a crash and nothing stored. Any other value appends exactly one
   * recipe owned by the session user, with absent or zero minutes stored as
   * 0. The answer is then 201 with the owner's public fields when the owner
   * is stored; when it is not, building the answer raises after the commit.
   */
  lemma CreateRecipeAppends(st: Store, body: RecipeRequest)
    requires SessionUser(st.session).Some?
    requires Present(body.title) && Present(body.instructions) && |body.instructions.value| >= MIN_INSTRUCTIONS
    ensures var (st', resp) := CreateRecipe(st, body);
      var minutes := if body.minutes.None? then 0 else body.minutes.value;
      var r := Recipe(st.nextRecipeId, body.title.value, body.instructions.value, minutes, st.session.value);
      (!FitsColumn(minutes) ==> st' == st && resp == Response(SERVER_ERROR, Crash)) &&
      (FitsColumn(minutes) ==>
        st'.recipes == st.recipes + [r] && st'.users == st.users && st'.session == st.session &&
        (resp.status == CREATED <==> exists i :: 0 <= i < |st.users| && st.users[i].id == st.session.value) &&
        (resp.status == CREATED ==> resp.payload == RecipeBody(View(r, CheckSession(st).payload.user))) &&
        (resp.status != CREATED ==> resp == Response(SERVER_ERROR, Crash)))
  {
  }

  /** The column's edge: the largest 64-bit signed value is stored, one more is refused at commit with nothing stored. */
  lemma MinutesColumnBoundary(st: Store, title: string, instructions: string)
    requires SessionUser(st.session).Some?
    requires title != "" && |instructions| >= MIN_INSTRUCTIONS
    ensures CreateRecipe(st, RecipeRequest(Some(title), Some(instructions), Some(0x7fff_ffff_ffff_ffff))).0.recipes ==
              st.recipes + [Recipe(st.nextRecipeId, title, instructions, 0x7fff_ffff_ffff_ffff, st.session.value)]
    ensures CreateRecipe(st, RecipeRequest(Some(title), Some(instructions), Some(0x8000_0000_0000_0000))) ==
              (st, Response(SERVER_ERROR, Crash))
  {
  }

  /** A recipe just created is listed last, after the user's earlier recipes. */
  lemma CreateThenList(st: Store, body: RecipeRequest)
    requires CreateRecipe(st, body).1.status == CREATED
    ensures var st' := CreateRecipe(st, body).0;
      var before, after := ListRecipes(st), ListRecipes(st');
      before.status == OK && after.status == OK &&
      after.payload.items == before.payload.items + [CreateRecipe(st, body).1.payload.recipe]
  {
    var st' := CreateRecipe(st, body).0;
    var uid := st.session.value;
    var r := st'.recipes[|st.recipes|];
    assert st'.recipes == st.recipes + [r];
    OwnedByAppend(st.recipes, r, uid);
  }

  /** The instructions boundary: 49 characters are refused and 50 accepted. */
  lemma InstructionsBoundary()
    ensures ValidateInstructions(seq(49, _ => 'x')).Failure?
    ensures ValidateInstructions(seq(50, _ => 'x')).Success?
  {
  }

  // ---------------------------------------------------------------- the session names a stored user

  /**
   * Starting from a fresh database, the session only ever names a stored
   * user: the property survives every handler, so the 404 answers and the
   * crash after a recipe insert cannot happen in a run that starts fresh.
   */
  lemma SessionResolvesPreserved(st: Store, signup: SignupRequest, login: LoginRequest, recipe: RecipeRequest, bc: Bcrypt, salt: Salt)
    requires Valid(st) && SessionResolves(st)
    ensures SessionResolves(Signup(st, signup, bc, salt).0)
    ensures SessionResolves(Login(st, login, bc).0)
    ensures SessionResolves(Logout(st).0)
    ensures SessionResolves(CreateRecipe(st, recipe).0)
  {
    var (st1, r1) := Signup(st, signup, bc, salt);
    if r1.status == CREATED {
      assert st1.users[|st.users|].id == st1.session.value;
    }
  }

  /**
   * While the session names a stored user, no 404 is answered, and the only
   * crash left in recipe creation is the failed commit, which stores nothing.
   */
  lemma SessionResolvesNoNotFound(st: Store, recipe: RecipeRequest)
    requires SessionResolves(st)
    ensures CheckSession(st).status != NOT_FOUND
    ensures ListRecipes(st).status != NOT_FOUND
    ensures CreateRecipe(st, recipe).1.status == SERVER_ERROR ==> CreateRecipe(st, recipe).0 == st
  {
  }

  lemma EmptyStore()
    ensures Valid(EMPTY) && SessionResolves(EMPTY)
  {
  }
}
