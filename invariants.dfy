/** The store invariant is preserved by every handler. */
module Invariants {
  import opened Credentials
  import opened Database
  import opened Handlers

  lemma SignupPreservesValid(st: Store, body: SignupRequest, bc: Bcrypt, salt: Salt)
    requires Valid(st)
    ensures Valid(Signup(st, body, bc, salt).0)
  {
  }

  lemma LoginPreservesValid(st: Store, body: LoginRequest, bc: Bcrypt)
    requires Valid(st)
    ensures Valid(Login(st, body, bc).0)
  {
  }

  lemma LogoutPreservesValid(st: Store)
    requires Valid(st)
    ensures Valid(Logout(st).0)
  {
  }

  lemma CreateRecipePreservesValid(st: Store, body: RecipeRequest)
    requires Valid(st)
    ensures Valid(CreateRecipe(st, body).0)
  {
  }
}
